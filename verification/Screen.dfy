/** The text screen of drivers/vga.c: an 80x25 buffer that scrolls, shown to be the last 25
    rows of a terminal that never forgets a row. */
module Screen {
  import opened Machine

  const WIDTH := 80
  const HEIGHT := 25

  const NEWLINE: byte := 10
  const RETURN: byte := 13
  const TAB: byte := 9
  const BACKSPACE: byte := 8
  const SPACE: byte := 32

  /** The buffer word for a character: `char` is signed, so from 128 on the sign bits fill
      the attribute byte. */
  function Cell(c: byte, color: byte): int {
    if c < 128 then c + 256 * color else 0xFF00 + c
  }

  type Row = r: seq<int> | |r| == WIDTH witness seq(WIDTH, i => 0)

  function BlankRow(color: byte): Row {
    seq(WIDTH, i => Cell(SPACE, color))
  }

  // ---------------------------------------------------------------- the unbounded terminal

  /** All rows ever written, the cursor's column and absolute row, and the current colour. */
  datatype Terminal = Terminal(rows: seq<Row>, x: int, y: int, color: byte) {
    function Top(): int { |rows| - HEIGHT }

    predicate Valid() {
      |rows| >= HEIGHT && 0 <= x < WIDTH && Top() <= y < |rows|
    }
  }

  function SetCell(rows: seq<Row>, y: int, x: int, cell: int): seq<Row>
    requires 0 <= y < |rows| && 0 <= x < WIDTH
  {
    rows[y := rows[y][x := cell]]
  }

  /** Where a character leaves the cursor and what it writes, before wrapping. */
  function Type(t: Terminal, c: byte): (r: Terminal)
    requires t.Valid()
    ensures |r.rows| == |t.rows| && 0 <= r.x <= WIDTH && t.y <= r.y <= t.y + 1 && (r.x == WIDTH ==> r.y == t.y)
    ensures r.color == t.color
  {
    if c == NEWLINE then t.(x := 0, y := t.y + 1)
    else if c == RETURN then t.(x := 0)
    else if c == TAB then t.(x := t.x / 8 * 8 + 8)
    else if c == BACKSPACE then
      if t.x > 0 then t.(x := t.x - 1, rows := SetCell(t.rows, t.y, t.x - 1, Cell(SPACE, t.color))) else t
    else t.(x := t.x + 1, rows := SetCell(t.rows, t.y, t.x, Cell(c, t.color)))
  }

  function Wrap(t: Terminal): Terminal {
    if t.x >= WIDTH then t.(x := 0, y := t.y + 1) else t
  }

  /** A cursor below the last row opens a blank row. */
  function Extend(t: Terminal): Terminal {
    if t.y >= |t.rows| then t.(rows := t.rows + [BlankRow(t.color)]) else t
  }

  function Put(t: Terminal, c: byte): (r: Terminal)
    requires t.Valid()
    ensures r.Valid()
  {
    Extend(Wrap(Type(t, c)))
  }

  function Write(t: Terminal, data: seq<byte>): (r: Terminal)
    requires t.Valid()
    ensures r.Valid()
  {
    if data == [] then t else Put(Write(t, data[..|data| - 1]), data[|data| - 1])
  }

  function Clear(t: Terminal): (r: Terminal)
    requires t.Valid()
    ensures r.Valid()
  {
    Terminal(t.rows[..t.Top()] + seq(HEIGHT, i => BlankRow(t.color)), 0, t.Top(), t.color)
  }

  lemma PutKeepsHistory(t: Terminal, c: byte)
    requires t.Valid()
    ensures t.y <= Put(t, c).y && |t.rows| <= |Put(t, c).rows|
    ensures forall i :: 0 <= i < t.y ==> Put(t, c).rows[i] == t.rows[i]
  {
  }

  /** Rows above the cursor are history: nothing written later changes or reorders them. */
  lemma {:induction false} HistoryIsKept(t: Terminal, data: seq<byte>)
    requires t.Valid()
    ensures t.y <= Write(t, data).y && |t.rows| <= |Write(t, data).rows|
    ensures forall i :: 0 <= i < t.y ==> Write(t, data).rows[i] == t.rows[i]
  {
    if data != [] {
      var init, last := data[..|data| - 1], data[|data| - 1];
      HistoryIsKept(t, init);
      PutKeepsHistory(Write(t, init), last);
    }
  }

  predicate Printable(c: byte) {
    c != 8 && c != 9 && c != 10 && c != 13
  }

  /** The position of the cursor counted in cells from the first row on. */
  function Position(t: Terminal): int { WIDTH * t.y + t.x }

  function CellAt(t: Terminal, position: int): int
    requires 0 <= position < WIDTH * |t.rows|
  {
    t.rows[position / WIDTH][position % WIDTH]
  }

  lemma PutPrintable(t: Terminal, c: byte, position: int)
    requires t.Valid() && Printable(c) && 0 <= position < WIDTH * |t.rows|
    ensures Position(Put(t, c)) == Position(t) + 1 && Put(t, c).color == t.color
    ensures |t.rows| <= |Put(t, c).rows|
    ensures CellAt(Put(t, c), position) == if position == Position(t) then Cell(c, t.color) else CellAt(t, position)
  {
    assert position == WIDTH * (position / WIDTH) + position % WIDTH;
  }

  /** A backspace after a character that did not wrap returns the cursor and leaves a blank;
      at the start of a row it does nothing, so it never reaches back into another row. */
  lemma BackspaceErases(t: Terminal, c: byte)
    requires t.Valid() && Printable(c)
    ensures t.x < 80 - 1 ==> Put(Put(t, c), 8) == t.(rows := SetCell(t.rows, t.y, t.x, 0x20 + 256 * t.color))
    ensures t.x == 0 ==> Put(t, 8) == t
  {
    if t.x < WIDTH - 1 {
      var r := Put(Put(t, c), BACKSPACE);
      assert r.rows[t.y] == t.rows[t.y][t.x := Cell(SPACE, t.color)];
    }
  }

  lemma BackspaceMoves(t: Terminal)
    requires t.Valid()
    ensures Put(t, BACKSPACE).Valid() && Put(t, BACKSPACE).y == t.y
    ensures Put(t, BACKSPACE).x == if t.x > 0 then t.x - 1 else 0
    ensures t.x == 0 ==> Put(t, BACKSPACE) == t
  {
  }

  /** Every cell from the cursor on is a blank of the current colour. */
  ghost predicate BlankAhead(t: Terminal) {
    && t.Valid()
    && forall y, x :: t.y <= y < |t.rows| && 0 <= x < WIDTH && (y > t.y || x >= t.x) ==>
         t.rows[y][x] == Cell(SPACE, t.color)
  }

  /** Only a carriage return moves the cursor back over text. */
  lemma BlankAheadStays(t: Terminal, c: byte)
    requires BlankAhead(t) && c != RETURN
    ensures BlankAhead(Put(t, c))
  {
  }

  /** With blanks ahead a backspace undoes a character exactly when it did not wrap. */
  lemma BackspaceUndoesIff(t: Terminal, c: byte)
    requires BlankAhead(t) && Printable(c)
    ensures Put(Put(t, c), BACKSPACE) == t <==> t.x < WIDTH - 1
  {
    BackspaceErases(t, c);
    if t.x < WIDTH - 1 {
      assert t.rows[t.y][t.x := Cell(SPACE, t.color)] == t.rows[t.y];
    }
  }

  /** A tab moves right to the next multiple of 8, which for the last stop is the next row,
      and writes no cell. */
  lemma TabStops(t: Terminal)
    requires t.Valid()
    ensures var r := Put(t, 9);
            && Position(t) < Position(r) <= Position(t) + 8 && r.x % 8 == 0
            && |t.rows| <= |r.rows| && r.rows[..|t.rows|] == t.rows
  {
  }

  predicate PlainText(data: seq<byte>) {
    forall i :: 0 <= i < |data| ==> Printable(data[i])
  }

  lemma {:induction false} TextAdvances(t: Terminal, data: seq<byte>)
    requires t.Valid() && PlainText(data)
    ensures Position(Write(t, data)) == Position(t) + |data| && Write(t, data).color == t.color
  {
    if data != [] {
      var init, last := data[..|data| - 1], data[|data| - 1];
      TextAdvances(t, init);
      PutPrintable(Write(t, init), last, 0);
    }
  }

  lemma LastCharacter(t: Terminal, data: seq<byte>, w: Terminal, position: int)
    requires t.Valid() && data != [] && Printable(data[|data| - 1]) && w == Write(t, data[..|data| - 1])
    requires 0 <= position < WIDTH * |w.rows|
    ensures position < WIDTH * |Write(t, data).rows|
    ensures CellAt(Write(t, data), position) ==
            if position == Position(w) then Cell(data[|data| - 1], w.color) else CellAt(w, position)
  {
    PutPrintable(w, data[|data| - 1], position);
  }

  /** Text without control characters runs on from the cursor: character k stands k cells
      further on, 80 to a row. */
  lemma {:induction false} TextRunsOn(t: Terminal, data: seq<byte>, k: int, position: int)
    requires t.Valid() && PlainText(data) && 0 <= k < |data| && position == Position(t) + k
    ensures position < WIDTH * |Write(t, data).rows|
    ensures CellAt(Write(t, data), position) == Cell(data[k], t.color)
    decreases |data|
  {
    var init := data[..|data| - 1];
    var w := Write(t, init);
    TextAdvances(t, init);
    if k < |init| {
      TextRunsOn(t, init, k, position);
    }
    LastCharacter(t, data, w, position);
  }

  // ---------------------------------------------------------------- lines

  /** A newline goes to the start of the next row, which is a new blank one below the last. */
  lemma NewlineStartsRow(t: Terminal)
    requires t.Valid()
    ensures var r := Put(t, 10);
            && Position(r) == 80 * (t.y + 1) && r.x == 0 && r.y == t.y + 1 && r.color == t.color
            && r.rows[..|t.rows|] == t.rows
            && |r.rows| == (if t.y + 1 == |t.rows| then |t.rows| + 1 else |t.rows|)
            && (t.y + 1 == |t.rows| ==> forall x :: 0 <= x < 80 ==> r.rows[r.y][x] == 0x20 + 256 * t.color)
  {
  }

  lemma ReturnStartsRow(t: Terminal)
    requires t.Valid()
    ensures Put(t, 13) == t.(x := 0)
  {
  }

  lemma {:induction false} WriteTwice(t: Terminal, a: seq<byte>, b: seq<byte>)
    requires t.Valid()
    ensures Write(t, a + b) == Write(Write(t, a), b)
    decreases |b|
  {
    if b == [] {
      assert a + b == a;
    } else {
      WriteTwice(t, a, b[..|b| - 1]);
      assert (a + b)[..|a + b| - 1] == a + b[..|b| - 1];
    }
  }

  lemma WriteOne(t: Terminal, c: byte)
    requires t.Valid()
    ensures Write(t, [c]) == Put(t, c)
  {
    assert [c][..0] == [];
  }

  /** The row and the column behind plain text. */
  lemma TextEnds(t: Terminal, data: seq<byte>)
    requires t.Valid() && PlainText(data)
    ensures Write(t, data).y == (80 * t.y + t.x + |data|) / 80
    ensures Write(t, data).x == (80 * t.y + t.x + |data|) % 80
  {
    TextAdvances(t, data);
    RowAndColumn(Write(t, data), 80 * t.y + t.x + |data|);
  }

  lemma RowAndColumn(u: Terminal, position: int)
    requires u.Valid() && Position(u) == position
    ensures u.y == position / 80 && u.x == position % 80
  {
  }

  /** The text of a second line starts at column 0 of the row after the one where the first
      text ended, and runs on from there. */
  lemma LinesStack(t: Terminal, a: seq<byte>, b: seq<byte>, k: int, position: int)
    requires t.Valid() && PlainText(a) && PlainText(b) && 0 <= k < |b|
    requires position == 80 * ((80 * t.y + t.x + |a|) / 80 + 1) + k
    ensures position < 80 * |Write(t, a + [10] + b).rows|
    ensures CellAt(Write(t, a + [10] + b), position) == Cell(b[k], t.color)
  {
    var u := Write(t, a);
    WriteTwice(t, a + [10], b);
    WriteTwice(t, a, [10]);
    WriteOne(u, 10);
    TextEnds(t, a);
    TextAdvances(t, a);
    NewlineStartsRow(u);
    TextRunsOn(Put(u, 10), b, k, position);
  }

  /** Clearing blanks the 25 visible rows, keeps the rows above and goes to the first of them. */
  lemma ClearBlanks(t: Terminal)
    requires t.Valid()
    ensures var r := Clear(t);
            && |r.rows| == |t.rows| && r.x == 0 && r.y == |t.rows| - 25 && r.color == t.color
            && (forall i :: 0 <= i < |t.rows| - 25 ==> r.rows[i] == t.rows[i])
            && (forall i, x :: |t.rows| - 25 <= i < |t.rows| && 0 <= x < 80 ==> r.rows[i][x] == 0x20 + 256 * t.color)
  {
  }

  /** A cell holds the character in its low byte and the colour in its high one, which is 0xFF
      for a character of 128 or more. */
  lemma CellBytes(c: byte, color: byte)
    ensures Cell(c, color) % 256 == c && Cell(c, color) / 256 == if c < 128 then color else 0xFF
  {
  }

  // ---------------------------------------------------------------- the screen

  /** Row y of the 80x25 buffer. */
  function RowOf(buffer: seq<int>, y: int): Row
    requires 0 <= y < HEIGHT && |buffer| == WIDTH * HEIGHT
  {
    buffer[y * WIDTH..y * WIDTH + WIDTH]
  }

  /** The buffer shows the last 25 rows of the terminal. */
  ghost predicate Shows(buffer: seq<int>, rows: seq<Row>)
    requires |buffer| == WIDTH * HEIGHT && |rows| >= HEIGHT
  {
    forall y :: 0 <= y < HEIGHT ==> RowOf(buffer, y) == rows[|rows| - HEIGHT + y]
  }

  /** Column x of screen row y is word 80 * y + x of the buffer. */
  lemma ShowsCells(buffer: seq<int>, rows: seq<Row>, y: int, x: int)
    requires |buffer| == 80 * 25 && |rows| >= 25 && Shows(buffer, rows) && 0 <= y < 25 && 0 <= x < 80
    ensures buffer[80 * y + x] == rows[|rows| - 25 + y][x]
  {
    assert RowOf(buffer, y) == rows[|rows| - HEIGHT + y];
    assert RowOf(buffer, y)[x] == buffer[y * WIDTH + x];
  }

  lemma SetCellShows(buffer: seq<int>, rows: seq<Row>, y: int, x: int, cell: int)
    requires |buffer| == WIDTH * HEIGHT && |rows| >= HEIGHT && Shows(buffer, rows) && 0 <= y < HEIGHT && 0 <= x < WIDTH
    ensures Shows(buffer[y * WIDTH + x := cell], SetCell(rows, |rows| - HEIGHT + y, x, cell))
  {
    var after, top := buffer[y * WIDTH + x := cell], |rows| - HEIGHT;
    forall r | 0 <= r < HEIGHT ensures RowOf(after, r) == SetCell(rows, top + y, x, cell)[top + r] {
      assert RowOf(buffer, r) == rows[top + r];
      if r == y {
        assert RowOf(after, r) == RowOf(buffer, r)[x := cell];
      } else {
        assert RowOf(after, r) == RowOf(buffer, r);
      }
    }
  }

  /** A slice of a slice, one element at a time. */
  lemma SliceOfSlice(s: seq<int>, a: int, b: int, i: int, j: int)
    requires 0 <= a <= b <= |s| && 0 <= i <= j <= b - a
    ensures s[a..b][i..j] == s[a + i..a + j]
  {
    forall k | 0 <= k < j - i ensures s[a..b][i..j][k] == s[a + i..a + j][k] {
      assert s[a..b][i + k] == s[a + (i + k)];
    }
  }

  lemma ScrollShows(buffer: seq<int>, rows: seq<Row>, after: seq<int>, blank: Row)
    requires |buffer| == |after| == WIDTH * HEIGHT && |rows| >= HEIGHT && Shows(buffer, rows)
    requires after[0..WIDTH * (HEIGHT - 1)] == buffer[WIDTH..WIDTH * HEIGHT] && after[WIDTH * (HEIGHT - 1)..] == blank
    ensures Shows(after, rows + [blank])
  {
    var top := |rows| - HEIGHT;
    forall r | 0 <= r < HEIGHT ensures RowOf(after, r) == (rows + [blank])[top + 1 + r] {
      if r < HEIGHT - 1 {
        assert RowOf(buffer, r + 1) == rows[top + (r + 1)];
        SliceOfSlice(after, 0, WIDTH * (HEIGHT - 1), r * WIDTH, r * WIDTH + WIDTH);
        SliceOfSlice(buffer, WIDTH, WIDTH * HEIGHT, r * WIDTH, r * WIDTH + WIDTH);
      }
    }
  }

  class Display {
    const buffer: array<int>
    var color: byte
    var cursorX: int
    var cursorY: int
    /** The terminal whose end is on the screen. */
    ghost var terminal: Terminal

    ghost predicate Valid()
      reads this, buffer
    {
      && buffer.Length == WIDTH * HEIGHT
      && terminal.Valid()
      && color == terminal.color && cursorX == terminal.x && cursorY == terminal.y - terminal.Top()
      && Shows(buffer[..], terminal.rows)
    }

    /** `vga_init` */
    constructor ()
      ensures Valid() && fresh(buffer) && terminal == Terminal(seq(HEIGHT, i => BlankRow(0x07)), 0, 0, 0x07)
    {
      buffer := new int[WIDTH * HEIGHT];
      cursorX, cursorY, color := 0, 0, 0x07;
      terminal := Terminal(seq(HEIGHT, i => BlankRow(0x07)), 0, 0, 0x07);
      new;
      Blank();
    }

    method SetColor(color: byte)
      requires Valid()
      modifies this`color, this`terminal
      ensures Valid() && terminal == old(terminal).(color := color)
    {
      this.color := color;
      terminal := terminal.(color := color);
    }

    /** Every cell a blank of the current colour. */
    method Blank()
      requires buffer.Length == WIDTH * HEIGHT
      modifies buffer
      ensures forall i :: 0 <= i < WIDTH * HEIGHT ==> buffer[i] == Cell(SPACE, color)
    {
      for y := 0 to HEIGHT
        invariant forall i :: 0 <= i < y * WIDTH ==> buffer[i] == Cell(SPACE, color)
      {
        for x := 0 to WIDTH
          invariant forall i :: 0 <= i < y * WIDTH + x ==> buffer[i] == Cell(SPACE, color)
        {
          buffer[y * WIDTH + x] := 0x20 + 256 * color;
        }
      }
    }

    method ClearScreen()
      requires Valid()
      modifies this`cursorX, this`cursorY, this`terminal, buffer
      ensures Valid() && terminal == Clear(old(terminal))
    {
      Blank();
      cursorX := 0;
      cursorY := 0;
      terminal := Clear(terminal);
    }

    method Scroll()
      requires buffer.Length == WIDTH * HEIGHT
      modifies buffer
      ensures buffer[0..WIDTH * (HEIGHT - 1)] == old(buffer[WIDTH..WIDTH * HEIGHT])
      ensures buffer[WIDTH * (HEIGHT - 1)..] == BlankRow(color)
    {
      ghost var was := buffer[..];
      for y := 1 to HEIGHT
        invariant forall i :: 0 <= i < (y - 1) * WIDTH ==> buffer[i] == was[i + WIDTH]
        invariant forall i :: (y - 1) * WIDTH <= i < WIDTH * HEIGHT ==> buffer[i] == was[i]
      {
        for x := 0 to WIDTH
          invariant forall i :: 0 <= i < (y - 1) * WIDTH + x ==> buffer[i] == was[i + WIDTH]
          invariant forall i :: (y - 1) * WIDTH + x <= i < WIDTH * HEIGHT ==> buffer[i] == was[i]
        {
          buffer[(y - 1) * WIDTH + x] := buffer[y * WIDTH + x];
        }
      }
      for x := 0 to WIDTH
        invariant forall i :: 0 <= i < (HEIGHT - 1) * WIDTH ==> buffer[i] == was[i + WIDTH]
        invariant forall i :: (HEIGHT - 1) * WIDTH <= i < (HEIGHT - 1) * WIDTH + x ==> buffer[i] == Cell(SPACE, color)
      {
        buffer[(HEIGHT - 1) * WIDTH + x] := 0x20 + 256 * color;
      }
    }

    method Putchar(c: byte)
      requires Valid()
      modifies this`cursorX, this`cursorY, this`terminal, buffer
      ensures Valid() && terminal == Put(old(terminal), c)
    {
      TypeChar(c);
      if cursorX >= WIDTH {
        cursorX := 0;
        cursorY := cursorY + 1;
      }
      ghost var typed := Wrap(Type(terminal, c));
      if cursorY >= HEIGHT {
        ghost var before := buffer[..];
        Scroll();
        ScrollShows(before, typed.rows, buffer[..], BlankRow(color));
        cursorY := HEIGHT - 1;
      }
      terminal := Extend(typed);
    }

    method StoreCell(cell: int)
      requires buffer.Length == WIDTH * HEIGHT && 0 <= cursorX < WIDTH && 0 <= cursorY < HEIGHT
      requires terminal.Valid() && Shows(buffer[..], terminal.rows)
      modifies buffer
      ensures Shows(buffer[..], SetCell(terminal.rows, terminal.Top() + cursorY, cursorX, cell))
    {
      ghost var was := buffer[..];
      buffer[cursorY * WIDTH + cursorX] := cell;
      SetCellShows(was, terminal.rows, cursorY, cursorX, cell);
      assert buffer[..] == was[cursorY * WIDTH + cursorX := cell];
    }

    /** The switch on the character, before wrapping. */
    method TypeChar(c: byte)
      requires Valid()
      modifies this`cursorX, this`cursorY, buffer
      ensures var t := Type(terminal, c);
              cursorX == t.x && cursorY == t.y - t.Top() && Shows(buffer[..], t.rows)
    {
      if c == NEWLINE {
        cursorX := 0;
        cursorY := cursorY + 1;
      } else if c == RETURN {
        cursorX := 0;
      } else if c == TAB {
        cursorX := (cursorX + 8) - (cursorX + 8) % 8;
      } else if c == BACKSPACE {
        if cursorX > 0 {
          cursorX := cursorX - 1;
          StoreCell(0x20 + 256 * color);
        }
      } else {
        StoreCell(Cell(c, color));
        cursorX := cursorX + 1;
      }
    }

    method WriteBytes(data: seq<byte>)
      requires Valid()
      modifies this`cursorX, this`cursorY, this`terminal, buffer
      ensures Valid() && terminal == Write(old(terminal), data)
    {
      for i := 0 to |data|
        invariant Valid() && terminal == Write(old(terminal), data[..i])
      {
        Putchar(data[i]);
        assert data[..i + 1][..i] == data[..i];
      }
      assert data[..|data|] == data;
    }
  }
}
