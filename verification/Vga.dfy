/** The VGA text buffer: 80 by 25 cells of a byte and a colour, and the writer
    that scrolls it. */
module Vga {
  import opened Words
  import opened ScreenLog
  import Volatile

  const BUFFER_BYTES: nat := 4000
  const WHITE_ON_BLACK: byte := 0x0F

  function CellAt(bytes: seq<byte>, n: nat): Cell
    requires n * 2 + 1 < |bytes|
  {
    Cell(bytes[n * 2], bytes[n * 2 + 1])
  }

  /** The 4000 bytes show these 25 rows: row `r`, column `c` has its byte at
      `(r * 80 + c) * 2` and its colour at the next. */
  ghost predicate Shows(bytes: seq<byte>, screen: seq<Row>) {
    && |bytes| == 4000 && |screen| == 25
    && forall r, c :: 0 <= r < 25 && 0 <= c < 80 ==>
         bytes[(r * 80 + c) * 2] == screen[r][c].ch && bytes[(r * 80 + c) * 2 + 1] == screen[r][c].color
  }

  function RowAt(bytes: seq<byte>, r: nat): Row
    requires |bytes| == BUFFER_BYTES && r < HEIGHT
  {
    var cells: seq<Cell> := seq(80, c requires 0 <= c < 80 => CellAt(bytes, r * 80 + c));
    assert |cells| == 80;
    cells
  }

  function RowsOf(bytes: seq<byte>): (rows: seq<Row>)
    requires |bytes| == BUFFER_BYTES
    ensures Shows(bytes, rows)
  {
    seq<Row>(HEIGHT, r requires 0 <= r < HEIGHT => RowAt(bytes, r))
  }

  function PutCell(bytes: seq<byte>, n: nat, cell: Cell): seq<byte>
    requires n * 2 + 1 < |bytes|
  {
    var half: seq<byte> := bytes[n * 2 := cell.ch];
    half[n * 2 + 1 := cell.color]
  }

  lemma ShowsAfterPut(bytes: seq<byte>, screen: seq<Row>, row: nat, col: nat, cell: Cell)
    requires Shows(bytes, screen) && row < HEIGHT && col < WIDTH
    ensures Shows(PutCell(bytes, row * 80 + col, cell), screen[row := WithCell(screen[row], col, cell)])
  {
  }

  lemma CellAfterPut(bytes: seq<byte>, n: nat, cell: Cell, m: nat)
    requires n * 2 + 1 < |bytes| && m * 2 + 1 < |bytes|
    ensures CellAt(PutCell(bytes, n, cell), m) == if m == n then cell else CellAt(bytes, m)
  {
  }

  /** Cells `[lo, hi)` are blank; the others as they were. */
  ghost predicate Blanked(now: seq<byte>, was: seq<byte>, lo: nat, hi: nat, color: byte) {
    && |now| == |was| == BUFFER_BYTES
    && forall n :: 0 <= n < 2000 ==> CellAt(now, n) == if lo <= n < hi then Cell(SPACE, color) else CellAt(was, n)
  }

  lemma BlankedOneMore(now: seq<byte>, was: seq<byte>, lo: nat, hi: nat, color: byte)
    requires Blanked(now, was, lo, hi, color) && lo <= hi < 2000
    ensures Blanked(PutCell(now, hi, Cell(SPACE, color)), was, lo, hi + 1, color)
  {
    forall n | 0 <= n < 2000
      ensures CellAt(PutCell(now, hi, Cell(SPACE, color)), n) == if lo <= n < hi + 1 then Cell(SPACE, color) else CellAt(was, n)
    {
      CellAfterPut(now, hi, Cell(SPACE, color), n);
    }
  }

  lemma ShowsLength(bytes: seq<byte>, screen: seq<Row>)
    requires Shows(bytes, screen)
    ensures |bytes| == BUFFER_BYTES && |screen| == HEIGHT
  {
  }

  lemma ShowsCell(bytes: seq<byte>, screen: seq<Row>, r: nat, c: nat)
    requires Shows(bytes, screen) && r < 25 && c < 80
    ensures CellAt(bytes, r * 80 + c) == screen[r][c]
  {
  }

  lemma ShowsBlank(bytes: seq<byte>, was: seq<byte>, color: byte)
    requires Blanked(bytes, was, 0, 2000, color)
    ensures Shows(bytes, BlankScreen(color))
  {
    forall r, c | 0 <= r < 25 && 0 <= c < 80
      ensures bytes[(r * 80 + c) * 2] == BlankScreen(color)[r][c].ch && bytes[(r * 80 + c) * 2 + 1] == BlankScreen(color)[r][c].color
    {
      assert CellAt(bytes, r * 80 + c) == Cell(SPACE, color);
    }
  }

  lemma ByteOfCell(now: seq<byte>, was: seq<byte>, lo: nat, hi: nat, color: byte, i: nat)
    requires Blanked(now, was, lo, hi, color) && i < 4000
    ensures now[i] == if !(lo * 2 <= i < hi * 2) then was[i] else if i % 2 == 0 then 32 else color
  {
    var n := i / 2;
    assert CellAt(now, n) == if lo <= n < hi then Cell(SPACE, color) else CellAt(was, n);
  }

  /** The bytes of the buffer moved up one row, cell by cell. */
  lemma MovedCell(was: seq<byte>, n: nat)
    requires |was| == BUFFER_BYTES && n < 1920
    ensures |Volatile.Moved(was, 160, 0, 3840)| == BUFFER_BYTES
    ensures CellAt(Volatile.Moved(was, 160, 0, 3840), n) == CellAt(was, n + 80)
  {
  }

  lemma ShowsAfterScroll(bytes: seq<byte>, screen: seq<Row>, bytes': seq<byte>, color: byte)
    requires Shows(bytes, screen)
    requires Blanked(bytes', Volatile.Moved(bytes, 160, 0, 3840), 1920, 2000, color)
    ensures Shows(bytes', screen[1..] + [Blank(color)])
  {
    var screen' := screen[1..] + [Blank(color)];
    forall r, c | 0 <= r < 25 && 0 <= c < 80
      ensures bytes'[(r * 80 + c) * 2] == screen'[r][c].ch && bytes'[(r * 80 + c) * 2 + 1] == screen'[r][c].color
    {
      var n := r * 80 + c;
      assert 0 <= n < 2000;
      if r < 24 {
        MovedCell(bytes, n);
        ShowsCell(bytes, screen, r + 1, c);
        assert CellAt(bytes', n) == screen'[r][c];
      } else {
        assert CellAt(bytes', n) == Cell(SPACE, color);
      }
    }
  }

  lemma DisplayUpdated(rows: seq<Row>, line: nat, row: nat, x: Row)
    requires |rows| >= 25 && line < |rows| && row + |rows| == line + 25
    ensures Display(rows[line := x]) == Display(rows)[row := x]
    ensures Display(rows)[row] == rows[line]
  {
    UpdateInSuffix(rows, |rows| - 25, row, x);
  }

  lemma UpdateInSuffix<T>(s: seq<T>, first: nat, i: nat, x: T)
    requires first + i < |s|
    ensures s[first + i := x][first..] == s[first..][i := x]
  {
  }

  /** Bytes all in one colour. */
  function Colored(bytes: seq<byte>, color: byte): (t: seq<Cell>)
    ensures |t| == |bytes|
  {
    seq(|bytes|, i requires 0 <= i < |bytes| => Cell(bytes[i], color))
  }

  function Recolored(g: Log, color: byte): Log {
    Log(g.rows, g.line, g.col, color)
  }

  // ---------- The writer's fields and buffer against the log ----------

  /** The buffer shows the last 25 rows of the log, and the fields agree with its
      cursor and colour. */
  ghost predicate Consistent(bytes: seq<byte>, col: nat, row: nat, color: byte, g: Log) {
    && g.Ok() && color == g.color && col == g.col && row + |g.rows| == g.line + HEIGHT
    && Shows(bytes, Display(g.rows))
  }

  lemma CursorInRange(bytes: seq<byte>, col: nat, row: nat, color: byte, g: Log)
    requires Consistent(bytes, col, row, color, g)
    ensures row < HEIGHT && col <= WIDTH
  {
    hide Shows;
  }

  lemma FieldsAgree(bytes: seq<byte>, col: nat, row: nat, color: byte, g: Log)
    requires Consistent(bytes, col, row, color, g)
    ensures col == g.col && color == g.color && g.Ok()
  {
    hide Shows;
  }

  lemma ConsistentAtFirst(bytes: seq<byte>, color: byte)
    requires |bytes| == BUFFER_BYTES
    ensures Consistent(bytes, 0, 0, color, Log(RowsOf(bytes), 0, 0, color))
  {
  }

  lemma NewlineInside(bytes: seq<byte>, col: nat, row: nat, color: byte, g: Log)
    requires Consistent(bytes, col, row, color, g) && row + 1 < HEIGHT
    ensures Consistent(bytes, 0, row + 1, color, Newline(g))
  {
    hide Shows;
  }

  lemma NewlineAtBottom(bytes: seq<byte>, col: nat, row: nat, color: byte, g: Log, bytes': seq<byte>)
    requires Consistent(bytes, col, row, color, g) && row + 1 >= HEIGHT
    requires Blanked(bytes', Volatile.Moved(bytes, 160, 0, 3840), 1920, 2000, color)
    ensures Consistent(bytes', 0, HEIGHT - 1, color, Newline(g))
  {
    hide Shows;
    ShowsAfterScroll(bytes, Display(g.rows), bytes', color);
    assert Display(Newline(g).rows) == Display(g.rows)[1..] + [Blank(color)];
  }

  lemma PutInRow(bytes: seq<byte>, col: nat, row: nat, color: byte, g: Log, b: byte)
    requires Consistent(bytes, col, row, color, g) && b != NEWLINE && col < WIDTH
    ensures row * 80 + col < 2000 && |bytes| == BUFFER_BYTES
    ensures Consistent(PutCell(bytes, row * 80 + col, Cell(b, color)), col + 1, row, color, Put(g, b))
  {
    hide Shows, Put, Display;
    PutIs(g, b);
    ShowsLength(bytes, Display(g.rows));
    DisplayUpdated(g.rows, g.line, row, WithCell(g.rows[g.line], g.col, Cell(b, color)));
    ShowsAfterPut(bytes, Display(g.rows), row, col, Cell(b, color));
  }

  lemma PutIs(g: Log, b: byte)
    requires g.Ok() && b != NEWLINE && g.col < WIDTH
    ensures Put(g, b) == Log(g.rows[g.line := WithCell(g.rows[g.line], g.col, Cell(b, g.color))], g.line, g.col + 1, g.color)
  {
  }

  lemma PutNewline(g: Log)
    requires g.Ok()
    ensures Put(g, NEWLINE) == Newline(g)
  {
  }

  lemma PutWraps(g: Log, b: byte)
    requires g.Ok() && g.col >= WIDTH && b != NEWLINE
    ensures Newline(g).Ok() && Put(g, b) == Put(Newline(g), b)
  {
  }

  lemma RecolorConsistent(bytes: seq<byte>, col: nat, row: nat, color: byte, g: Log, c: byte)
    requires Consistent(bytes, col, row, color, g)
    ensures Consistent(bytes, col, row, c, Recolored(g, c))
  {
    hide Shows;
  }

  lemma ClearConsistent(was: seq<byte>, col: nat, row: nat, color: byte, g: Log, bytes: seq<byte>)
    requires Consistent(was, col, row, color, g) && Blanked(bytes, was, 0, 2000, color)
    ensures Consistent(bytes, col, row, color, Log(BlankScreen(color), row, col, color))
  {
    hide Shows, Blanked;
    ShowsBlank(bytes, was, color);
    assert Display(BlankScreen(color)) == BlankScreen(color);
  }

  lemma DisplayTwice(rows: seq<Row>)
    requires |rows| >= 25
    ensures |Display(rows)| == 25 && Display(Display(rows)) == Display(rows)
  {
  }

  lemma HomeConsistent(bytes: seq<byte>, col: nat, row: nat, color: byte, g: Log)
    requires Consistent(bytes, col, row, color, g)
    ensures Log(Display(g.rows), 0, 0, color).Ok()
    ensures Consistent(bytes, 0, 0, color, Log(Display(g.rows), 0, 0, color))
  {
    hide Shows, Display;
    DisplayTwice(g.rows);
  }

  class VgaWriter {
    const buffer: array<byte>
    var col: nat
    var row: nat
    var color: byte
    /** Every row written so far, of which the buffer shows the last 25. */
    ghost var log: Log

    ghost predicate Valid()
      reads this, buffer
    {
      && buffer.Length == BUFFER_BYTES && log.Ok()
      && row < HEIGHT && col <= WIDTH
      && Consistent(buffer[..], col, row, color, log)
    }

    /** Whatever the buffer holds at first is the first screenful of the log. */
    constructor (buffer: array<byte>)
      requires buffer.Length == BUFFER_BYTES
      ensures Valid() && this.buffer == buffer && buffer[..] == old(buffer[..])
      ensures col == 0 && row == 0 && color == 0x0F
      ensures log == Log(RowsOf(buffer[..]), 0, 0, WHITE_ON_BLACK)
    {
      hide Consistent, Shows;
      ConsistentAtFirst(buffer[..], WHITE_ON_BLACK);
      this.buffer := buffer;
      col, row, color := 0, 0, WHITE_ON_BLACK;
      log := Log(RowsOf(buffer[..]), 0, 0, WHITE_ON_BLACK);
    }

    method SetCell(n: nat, ch: byte)
      requires buffer.Length == BUFFER_BYTES && n < 2000
      modifies buffer
      ensures buffer[..] == PutCell(old(buffer[..]), n, Cell(ch, color))
      ensures buffer[n * 2] == ch && buffer[n * 2 + 1] == color
      ensures forall i :: 0 <= i < 4000 && i != n * 2 && i != n * 2 + 1 ==> buffer[i] == old(buffer[i])
    {
      buffer[n * 2] := ch;
      buffer[n * 2 + 1] := color;
    }

    method ClearRow(r: nat)
      requires buffer.Length == BUFFER_BYTES && r < HEIGHT
      modifies buffer
      ensures Blanked(buffer[..], old(buffer[..]), r * 80, r * 80 + 80, color)
    {
      for c := 0 to 80
        invariant Blanked(buffer[..], old(buffer[..]), r * 80, r * 80 + c, color)
      {
        BlankedOneMore(buffer[..], old(buffer[..]), r * 80, r * 80 + c, color);
        SetCell(r * 80 + c, SPACE);
      }
    }

    /** Moves every row up one and blanks the last. */
    method Scroll()
      requires buffer.Length == BUFFER_BYTES
      modifies buffer, this`row
      ensures row == HEIGHT - 1
      ensures Blanked(buffer[..], Volatile.Moved(old(buffer[..]), 160, 0, 3840), 1920, 2000, color)
      ensures forall i :: 0 <= i < 3840 ==> buffer[i] == old(buffer[i + 160])
      ensures forall i :: 3840 <= i < 4000 ==> buffer[i] == if i % 2 == 0 then 32 else color
    {
      Volatile.Copy(buffer, WIDTH * 2, 0, 1, (HEIGHT - 1) * WIDTH * 2);
      row := HEIGHT - 1;
      ghost var moved := buffer[..];
      ClearRow(row);
      forall i | 0 <= i < 4000
        ensures i < 3840 ==> buffer[i] == moved[i]
        ensures i >= 3840 ==> buffer[i] == if i % 2 == 0 then 32 else color
      {
        ByteOfCell(buffer[..], moved, 1920, 2000, color, i);
      }
    }

    method NewLine()
      requires Valid()
      modifies this, buffer
      ensures Valid() && log == Newline(old(log)) && color == old(color)
      ensures col == 0 && row == if old(row) < 24 then old(row) + 1 else 24
    {
      hide Consistent, Shows, Blanked;
      FieldsAgree(buffer[..], col, row, color, log);
      ghost var bytes := buffer[..];
      if row + 1 < HEIGHT {
        NewlineInside(bytes, col, row, color, log);
      }
      col := 0;
      row := row + 1;
      if row >= HEIGHT {
        Scroll();
        NewlineAtBottom(bytes, old(col), old(row), color, log, buffer[..]);
      }
      log := Newline(log);
    }

    method StoreByte(b: byte)
      requires Valid() && b != NEWLINE && col < WIDTH
      modifies this, buffer
      ensures Valid() && log == Put(old(log), b) && color == old(color)
      ensures row == old(row) && col == old(col) + 1
      ensures buffer[(old(row) * 80 + old(col)) * 2] == b && buffer[(old(row) * 80 + old(col)) * 2 + 1] == color
    {
      hide Consistent, Shows, Put;
      PutInRow(buffer[..], col, row, color, log, b);
      SetCell(row * 80 + col, b);
      col := col + 1;
      log := Put(log, b);
    }

    method WriteByte(b: byte)
      requires Valid()
      modifies this, buffer
      ensures Valid() && log == Put(old(log), b) && color == old(color)
      ensures b == 10 || old(col) >= 80 ==> row == if old(row) < 24 then old(row) + 1 else 24
      ensures b == 10 ==> col == 0
      ensures b != 10 ==>
        && col == (if old(col) >= 80 then 1 else old(col) + 1) && (old(col) < 80 ==> row == old(row))
        && buffer[(row * 80 + col - 1) * 2] == b && buffer[(row * 80 + col - 1) * 2 + 1] == color
    {
      hide Consistent, Shows, Put, Newline, Display, Blank;
      FieldsAgree(buffer[..], col, row, color, log);
      PutNewline(log);
      if b == NEWLINE {
        NewLine();
        return;
      }
      if col >= WIDTH {
        PutWraps(log, b);
        NewLine();
      }
      StoreByte(b);
    }

    /** Writes bytes one after another. */
    method Write(bytes: seq<byte>)
      requires Valid()
      modifies this, buffer
      ensures Valid() && log == PutAll(old(log), Colored(bytes, old(color)))
    {
      hide Consistent, Shows, Put;
      FieldsAgree(buffer[..], col, row, color, log);
      ghost var text := Colored(bytes, color);
      for i := 0 to |bytes|
        invariant Valid() && color == old(color) == log.color
        invariant PutAll(old(log), text) == PutAll(log, text[i..])
      {
        assert text[i..][0] == Cell(bytes[i], color) && text[i..][1..] == text[i + 1..];
        WriteByte(bytes[i]);
      }
    }

    method SetColor(c: byte)
      requires Valid()
      modifies this
      ensures Valid() && log == Recolored(old(log), c) && color == c
    {
      hide Consistent, Shows;
      RecolorConsistent(buffer[..], col, row, color, log, c);
      color := c;
      log := Recolored(log, c);
    }

    /** Prints in another colour, then goes back to the one before. */
    method PrintColor(c: byte, bytes: seq<byte>)
      requires Valid()
      modifies this, buffer
      ensures Valid() && log == Recolored(PutAll(Recolored(old(log), c), Colored(bytes, c)), old(color))
    {
      hide Consistent, PutAll, Colored;
      var previous := color;
      SetColor(c);
      Write(bytes);
      SetColor(previous);
    }

    /** Blanks the buffer in the current colour; the cursor stays. */
    method Clear()
      requires Valid()
      modifies buffer, this`log
      ensures Valid() && log == Log(BlankScreen(color), row, col, color)
      ensures forall i :: 0 <= i < 4000 ==> buffer[i] == if i % 2 == 0 then 32 else color
    {
      hide Consistent;
      ghost var bytes := buffer[..];
      for cell := 0 to WIDTH * HEIGHT
        invariant log == old(log)
        invariant Blanked(buffer[..], bytes, 0, cell, color)
      {
        BlankedOneMore(buffer[..], bytes, 0, cell, color);
        SetCell(cell, SPACE);
      }
      forall i | 0 <= i < 4000 ensures buffer[i] == if i % 2 == 0 then 32 else color {
        ByteOfCell(buffer[..], bytes, 0, 2000, color, i);
      }
      ClearConsistent(bytes, col, row, color, log, buffer[..]);
      FieldsAgree(bytes, col, row, color, log);
      log := Log(BlankScreen(color), row, col, color);
    }

    method Reset()
      requires Valid()
      modifies this, buffer
      ensures Valid() && log == Cleared(old(color)) && color == old(color)
    {
      hide Consistent, Shows, Display, Blank, BlankScreen;
      HomeConsistent(buffer[..], col, row, color, log);
      col := 0;
      row := 0;
      log := Log(Display(log.rows), 0, 0, color);
      Clear();
    }
  }

  // ---------- Everything printed since the screen was cleared ----------

  /** A call that prints `bytes` in `color`. */
  datatype Print = Print(color: byte, bytes: seq<byte>)

  function TextOf(prints: seq<Print>): seq<Cell> {
    if prints == [] then [] else Colored(prints[0].bytes, prints[0].color) + TextOf(prints[1..])
  }

  /** The log after each call, each going back to the colour before it. */
  function AfterPrints(g: Log, prints: seq<Print>): (r: Log)
    requires g.Ok()
    ensures r.Ok()
    decreases |prints|
  {
    if prints == [] then g
    else AfterPrints(Recolored(PutAll(Recolored(g, prints[0].color), Colored(prints[0].bytes, prints[0].color)), g.color), prints[1..])
  }

  ghost predicate SameText(g: Log, h: Log) {
    g.rows == h.rows && g.line == h.line && g.col == h.col
  }

  lemma {:induction false} ColorBeforeIsIrrelevant(g: Log, h: Log, text: seq<Cell>)
    requires g.Ok() && h.Ok() && SameText(g, h)
    ensures SameText(PutAll(g, text), PutAll(h, text))
  {
  }

  lemma {:induction false} PrintsAreOneText(g: Log, h: Log, prints: seq<Print>)
    requires g.Ok() && h.Ok() && SameText(g, h)
    ensures SameText(AfterPrints(g, prints), PutAll(h, TextOf(prints)))
    decreases |prints|
  {
    if prints != [] {
      var first := Colored(prints[0].bytes, prints[0].color);
      PutAllSplit(h, first, TextOf(prints[1..]));
      ColorBeforeIsIrrelevant(Recolored(g, prints[0].color), h, first);
      var next := Recolored(PutAll(Recolored(g, prints[0].color), first), g.color);
      PrintsAreOneText(next, PutAll(h, first), prints[1..]);
    }
  }

  /** From a cleared screen, after any calls printing any bytes in any colours,
      the rows on display are the last 25 of the text printed, laid out in rows
      of 80. */
  lemma ScreenIsEndOfText(prints: seq<Print>, clear: byte)
    ensures Display(AfterPrints(Cleared(clear), prints).rows)
         == Display(PadScreen(Paginate(TextOf(prints), 0, clear, clear), clear))
  {
    PrintsAreOneText(Cleared(clear), Cleared(clear), prints);
    LogIsPagination(TextOf(prints), clear);
  }

  /** The screen after these calls on a screen cleared in white on black. */
  function ConsoleScreen(prints: seq<Print>): seq<Row> {
    Display(PadScreen(Paginate(TextOf(prints), 0, 0x0F, 0x0F), 0x0F))
  }

  /** The console as the kernel uses it: cleared once, then printed to.  The
      buffer ends up showing the last 25 rows of everything printed. */
  method Console(buffer: array<byte>, prints: seq<Print>)
    requires buffer.Length == BUFFER_BYTES
    modifies buffer
    ensures Shows(buffer[..], ConsoleScreen(prints))
  {
    hide Shows, PutAll, Paginate, Colored;
    var writer := new VgaWriter(buffer);
    writer.Clear();
    ghost var start := writer.log;
    for i := 0 to |prints|
      invariant writer.Valid() && writer.buffer == buffer && fresh(writer)
      invariant AfterPrints(start, prints) == AfterPrints(writer.log, prints[i..])
    {
      assert prints[i..][0] == prints[i] && prints[i..][1..] == prints[i + 1..];
      FieldsAgree(buffer[..], writer.col, writer.row, writer.color, writer.log);
      writer.PrintColor(prints[i].color, prints[i].bytes);
    }
    ScreenIsEndOfText(prints, WHITE_ON_BLACK);
  }

  // ---------- The same, byte by byte ----------

  lemma OnePrint(c: byte, bytes: seq<byte>)
    ensures TextOf([Print(c, bytes)]) == Colored(bytes, c)
  {
    var prints := [Print(c, bytes)];
    assert TextOf(prints[1..]) == [];
  }

  lemma ShortScreen(prints: seq<Print>, rows: seq<Row>)
    requires rows == Paginate(TextOf(prints), 0, 0x0F, 0x0F) && |rows| <= 25
    ensures |ConsoleScreen(prints)| == 25
    ensures forall r :: 0 <= r < 25 ==> ConsoleScreen(prints)[r] == if r < |rows| then rows[r] else Fill([], 0x0F)
  {
  }

  lemma ShowsAt(buffer: seq<byte>, screen: seq<Row>, n: nat)
    requires Shows(buffer, screen) && n < 2000
    ensures buffer[n * 2] == screen[n / 80][n % 80].ch && buffer[n * 2 + 1] == screen[n / 80][n % 80].color
  {
    var r, c := n / 80, n % 80;
    assert (r * 80 + c) * 2 == n * 2;
    assert buffer[(r * 80 + c) * 2] == screen[r][c].ch;
  }

  /** Printing up to a screenful without a line break puts byte j at `2 * j` of
      the buffer and its colour beside it. */
  lemma ConsolePlain(buffer: seq<byte>, c: byte, bytes: seq<byte>, j: nat)
    requires |bytes| <= 2000 && j < |bytes| && forall i :: 0 <= i < |bytes| ==> bytes[i] != 10
    requires Shows(buffer, ConsoleScreen([Print(c, bytes)]))
    ensures buffer[j * 2] == bytes[j] && buffer[j * 2 + 1] == c
  {
    hide Shows, Paginate, ConsoleScreen;
    ShowsAt(buffer, ConsoleScreen([Print(c, bytes)]), j);
    var text := Colored(bytes, c);
    OnePrint(c, bytes);
    PlainTextRows(text, 0, 0x0F, 0x0F);
    PlainText(text, 0, 0x0F, 0x0F, j);
    ShortScreen([Print(c, bytes)], Paginate(text, 0, 0x0F, 0x0F));
  }

  /** One byte goes to the first cell in its colour; every other cell is a blank
      in white on black. */
  lemma ConsoleOneByte(buffer: seq<byte>, c: byte, x: byte, n: nat)
    requires x != 10 && n < 2000 && Shows(buffer, ConsoleScreen([Print(c, [x])]))
    ensures buffer[n * 2] == (if n == 0 then x else 32) && buffer[n * 2 + 1] == if n == 0 then c else 0x0F
  {
    hide Shows, Paginate, ConsoleScreen;
    ShowsAt(buffer, ConsoleScreen([Print(c, [x])]), n);
    var text := Colored([x], c);
    OnePrint(c, [x]);
    assert text[0] == Cell(x, c) && RowLength(text) == 1;
    PaginateUnrolled(text, 0, 0x0F, 0x0F);
    var rows := Paginate(text, 0, 0x0F, 0x0F);
    assert rows == [Fill(text, 0x0F)];
    ShortScreen([Print(c, [x])], rows);
    assert ConsoleScreen([Print(c, [x])])[n / 80][n % 80] == if n == 0 then Cell(x, c) else Cell(32, 0x0F);
  }

  /** Byte 10 breaks the line: what follows goes to byte 160, the first of the
      second row. */
  lemma ConsoleTwoLines(buffer: seq<byte>, c: byte, x: byte, y: byte)
    requires x != 10 && y != 10 && Shows(buffer, ConsoleScreen([Print(c, [x, 10, y])]))
    ensures buffer[0] == x && buffer[1] == c && buffer[2] == 32 && buffer[160] == y && buffer[161] == c
  {
    hide Shows, Paginate, ConsoleScreen;
    var screen := ConsoleScreen([Print(c, [x, 10, y])]);
    ShowsAt(buffer, screen, 0);
    ShowsAt(buffer, screen, 1);
    ShowsAt(buffer, screen, 80);
    var text := Colored([x, 10, y], c);
    OnePrint(c, [x, 10, y]);
    assert text[0].ch == x && text[1].ch == 10 && RowLength(text) == 1;
    PaginateUnrolled(text, 0, 0x0F, 0x0F);
    PaginateUnrolled(text[2..], 1, 0x0F, 0x0F);
    assert text[2..][0].ch == y && RowLength(text[2..]) == 1;
    var rows := Paginate(text, 0, 0x0F, 0x0F);
    assert rows == [Fill(text[..1], 0x0F), Fill(text[2..], 0x0F)];
    ShortScreen([Print(c, [x, 10, y])], rows);
    assert screen[0][0] == text[0] && screen[0][1] == Cell(32, 0x0F) && screen[1][0] == text[2];
  }

  /** Two calls go one after the other, each in its own colour. */
  lemma ConsoleTwoPrints(buffer: seq<byte>, c: byte, x: byte, d: byte, y: byte)
    requires x != 10 && y != 10 && Shows(buffer, ConsoleScreen([Print(c, [x]), Print(d, [y])]))
    ensures buffer[0] == x && buffer[1] == c && buffer[2] == y && buffer[3] == d
  {
    hide Shows, Paginate, ConsoleScreen;
    var prints := [Print(c, [x]), Print(d, [y])];
    ShowsAt(buffer, ConsoleScreen(prints), 0);
    ShowsAt(buffer, ConsoleScreen(prints), 1);
    OnePrint(d, [y]);
    assert prints[1..] == [Print(d, [y])];
    var text := TextOf(prints);
    assert text == [Cell(x, c), Cell(y, d)];
    PlainTextRows(text, 0, 0x0F, 0x0F);
    PlainText(text, 0, 0x0F, 0x0F, 0);
    PlainText(text, 0, 0x0F, 0x0F, 1);
    ShortScreen(prints, Paginate(text, 0, 0x0F, 0x0F));
  }
}
