/** The text screen in the abstract: an unbounded log of rows of which the last
    25 are on display, and, independently, how a text falls into rows. */
module ScreenLog {
  import opened Words

  const WIDTH: nat := 80
  const HEIGHT: nat := 25
  const NEWLINE: byte := 10
  const SPACE: byte := 32

  datatype Cell = Cell(ch: byte, color: byte)

  type Row = r: seq<Cell> | |r| == 80 ghost witness seq(80, _ => Cell(0, 0))

  function Blank(color: byte): (r: Row)
    ensures forall c :: 0 <= c < WIDTH ==> r[c] == Cell(SPACE, color)
  {
    seq(80, _ => Cell(SPACE, color))
  }

  /** All rows ever shown, the row and column of the cursor, and the colour. */
  datatype Log = Log(rows: seq<Row>, line: nat, col: nat, color: byte) {
    ghost predicate Ok() {
      && |rows| >= HEIGHT && line < |rows| && col <= WIDTH
      && (|rows| > HEIGHT ==> line == |rows| - 1)
    }
  }

  function Newline(g: Log): Log {
    Log(if g.line + 1 >= |g.rows| then g.rows + [Blank(g.color)] else g.rows, g.line + 1, 0, g.color)
  }

  function WithCell(row: Row, col: nat, cell: Cell): Row
    requires col < WIDTH
  {
    row[col := cell]
  }

  /** One byte, wrapping only when a further byte needs the room. */
  function Put(g: Log, b: byte): (r: Log)
    requires g.Ok()
    ensures r.Ok() && r.color == g.color
  {
    if b == NEWLINE then Newline(g)
    else
      var h := if g.col >= WIDTH then Newline(g) else g;
      Log(h.rows[h.line := WithCell(h.rows[h.line], h.col, Cell(b, h.color))], h.line, h.col + 1, h.color)
  }

  /** A text, each byte in its own colour. */
  function PutAll(g: Log, text: seq<Cell>): (r: Log)
    requires g.Ok()
    ensures r.Ok()
    decreases |text|
  {
    if text == [] then g
    else PutAll(Put(Log(g.rows, g.line, g.col, text[0].color), text[0].ch), text[1..])
  }

  lemma {:induction false} PutAllSplit(g: Log, a: seq<Cell>, b: seq<Cell>)
    requires g.Ok()
    ensures PutAll(g, a + b) == PutAll(PutAll(g, a), b)
    decreases |a|
  {
    if a == [] {
      assert a + b == b;
    } else {
      assert (a + b)[1..] == a[1..] + b;
      PutAllSplit(Put(Log(g.rows, g.line, g.col, a[0].color), a[0].ch), a[1..], b);
    }
  }

  // ---------- How a text falls into rows ----------
  //
  // Written out in numbers, independently of the log above: rows of 80, a screen
  // of 25, line breaks at byte 10, blanks of byte 32.

  /** The length of the first row: up to the line break, or 80. */
  function RowLength(text: seq<Cell>): (k: nat)
    ensures k <= |text| && k <= 80
    ensures forall i :: 0 <= i < k ==> text[i].ch != 10
    ensures k < |text| && k < 80 ==> text[k].ch == 10
  {
    RowLengthFrom(text, 0)
  }

  function RowLengthFrom(text: seq<Cell>, i: nat): (k: nat)
    requires i <= |text| && i <= 80
    ensures i <= k <= |text| && k <= 80
    ensures forall j :: i <= j < k ==> text[j].ch != 10
    ensures k < |text| && k < 80 ==> text[k].ch == 10
    decreases |text| - i
  {
    if i == |text| || i == 80 || text[i].ch == 10 then i else RowLengthFrom(text, i + 1)
  }

  /** A row holding `text`, the rest blank in colour `pad`. */
  function Fill(text: seq<Cell>, pad: byte): (r: Row)
    requires |text| <= 80
    ensures forall c :: 0 <= c < 80 ==> r[c] == if c < |text| then text[c] else Cell(32, pad)
  {
    var blanks: seq<Cell> := seq(80 - |text|, _ => Cell(32, pad));
    text + blanks
  }

  /** The rows of `text`, the first of them being row `n` of the log.  The first
      25 rows were blanked by the clear; a later row is blanked in the colour of
      the byte that started it. */
  function Paginate(text: seq<Cell>, n: nat, clear: byte, pad: byte): (rows: seq<Row>)
    ensures rows != []
    decreases |text|
  {
    var k := RowLength(text);
    var first: Row := Fill(text[..k], pad);
    if k == |text| then [first]
    else
      var pad' := if n + 1 < 25 then clear else text[k].color;
      if text[k].ch == 10 then [first] + Paginate(text[k + 1..], n + 1, clear, pad')
      else [first] + Paginate(text[k..], n + 1, clear, pad')
  }

  /** `rows`, made up to a full screen with blank rows. */
  function PadScreen(rows: seq<Row>, clear: byte): (screen: seq<Row>)
    ensures |screen| >= 25 && |screen| == if |rows| >= 25 then |rows| else 25
    ensures forall r :: 0 <= r < |screen| ==> screen[r] == if r < |rows| then rows[r] else Fill([], clear)
  {
    if |rows| >= 25 then rows else rows + seq(25 - |rows|, _ => Fill([], clear))
  }

  /** The rows on display: the last 25. */
  function Display(rows: seq<Row>): seq<Row>
    requires |rows| >= 25
  {
    rows[|rows| - 25..]
  }

  // ---------- The log lays text out the same way ----------

  lemma FillNothing(pad: byte)
    ensures Fill([], pad) == Blank(pad)
  {
  }

  /** The cursor stands at the start of a row still blank in colour `pad`, with
      only rows blank in the clear colour below. */
  ghost predicate Fresh(g: Log, clear: byte, pad: byte) {
    && g.Ok() && g.col == 0 && g.rows[g.line] == Blank(pad)
    && forall r :: g.line < r < |g.rows| ==> g.rows[r] == Blank(clear)
  }

  /** A row's worth of bytes without a newline only fills the cursor's row. */
  lemma {:induction false} FillsRow(g: Log, text: seq<Cell>, k: nat, clear: byte, pad: byte)
    requires Fresh(g, clear, pad) && k <= |text| && k <= WIDTH && forall i :: 0 <= i < k ==> text[i].ch != NEWLINE
    ensures var h := PutAll(g, text[..k]);
      h.line == g.line && h.col == k && h.rows == g.rows[g.line := Fill(text[..k], pad)]
    decreases k
  {
    if k == 0 {
      assert text[..0] == [];
      FillNothing(pad);
      assert g.rows[g.line := Blank(pad)] == g.rows;
    } else {
      FillsRow(g, text, k - 1, clear, pad);
      var h := PutAll(g, text[..k - 1]);
      assert text[..k] == text[..k - 1] + [text[k - 1]];
      PutAllSplit(g, text[..k - 1], [text[k - 1]]);
      assert Fill(text[..k - 1], pad)[k - 1 := text[k - 1]] == Fill(text[..k], pad);
      var c := text[k - 1];
      assert [c][1..] == [];
      assert PutAll(h, [c]) == Put(Log(h.rows, h.line, h.col, c.color), c.ch);
    }
  }

  /** Moving to the next row in colour `color` gives a fresh row. */
  lemma NewlineIsFresh(g: Log, clear: byte, color: byte)
    requires g.Ok() && forall r :: g.line < r < |g.rows| ==> g.rows[r] == Blank(clear)
    ensures var h := Newline(Log(g.rows, g.line, g.col, color));
      && Fresh(h, clear, if g.line + 1 < HEIGHT then clear else color)
      && h.line == g.line + 1 && |h.rows| >= |g.rows|
      && forall r :: 0 <= r <= g.line ==> h.rows[r] == g.rows[r]
  {
  }

  /** Rows `[from, from + |part|)` of the log are `part`, and the cursor is on
      the last of them. */
  ghost predicate EndsWith(g: Log, from: nat, part: seq<Row>, clear: byte) {
    && g.Ok() && part != [] && g.line == from + |part| - 1
    && (forall i :: 0 <= i < |part| ==> g.rows[from + i] == part[i])
    && forall r :: g.line < r < |g.rows| ==> g.rows[r] == Blank(clear)
  }

  ghost predicate SameAbove(g: Log, h: Log, n: nat) {
    n <= |g.rows| && n <= |h.rows| && forall r :: 0 <= r < n ==> h.rows[r] == g.rows[r]
  }

  lemma FirstRowThenRest(g: Log, text: seq<Cell>, clear: byte, pad: byte) returns (h: Log)
    requires Fresh(g, clear, pad) && RowLength(text) < |text|
    ensures var k := RowLength(text);
      && Fresh(h, clear, if g.line + 1 < HEIGHT then clear else text[k].color)
      && h.line == g.line + 1 && SameAbove(g, h, g.line) && h.rows[g.line] == Fill(text[..k], pad)
      && PutAll(g, text) == PutAll(h, if text[k].ch == NEWLINE then text[k + 1..] else text[k..])
  {
    var k := RowLength(text);
    FillsRow(g, text, k, clear, pad);
    var m := PutAll(g, text[..k]);
    assert text == text[..k] + text[k..];
    PutAllSplit(g, text[..k], text[k..]);
    NewlineIsFresh(m, clear, text[k].color);
    h := Newline(Log(m.rows, m.line, m.col, text[k].color));
    var rest := text[k..];
    assert rest[0] == text[k] && rest[1..] == text[k + 1..];
    if text[k].ch == NEWLINE {
      assert PutAll(m, rest) == PutAll(h, rest[1..]);
    } else {
      assert PutAll(m, rest) == PutAll(h, rest);
    }
  }

  lemma OneRow(g: Log, text: seq<Cell>, clear: byte, pad: byte)
    requires Fresh(g, clear, pad) && RowLength(text) == |text|
    ensures EndsWith(PutAll(g, text), g.line, [Fill(text, pad)], clear)
    ensures SameAbove(g, PutAll(g, text), g.line)
  {
    assert text[..|text|] == text;
    FillsRow(g, text, |text|, clear, pad);
  }

  lemma PaginateUnrolled(text: seq<Cell>, n: nat, clear: byte, pad: byte)
    ensures var k := RowLength(text);
      Paginate(text, n, clear, pad) ==
      if k == |text| then [Fill(text, pad)]
      else [Fill(text[..k], pad)] +
           Paginate(if text[k].ch == 10 then text[k + 1..] else text[k..], n + 1, clear,
                    if n + 1 < 25 then clear else text[k].color)
  {
    assert text[..|text|] == text;
  }

  lemma {:induction false} PaginateFrom(g: Log, text: seq<Cell>, clear: byte, pad: byte)
    requires Fresh(g, clear, pad)
    ensures EndsWith(PutAll(g, text), g.line, Paginate(text, g.line, clear, pad), clear)
    ensures SameAbove(g, PutAll(g, text), g.line)
    decreases |text|
  {
    hide PutAll, Paginate, EndsWith;
    PaginateUnrolled(text, g.line, clear, pad);
    var k := RowLength(text);
    if k == |text| {
      OneRow(g, text, clear, pad);
    } else {
      var h := FirstRowThenRest(g, text, clear, pad);
      var rest := if text[k].ch == NEWLINE then text[k + 1..] else text[k..];
      var pad' := if g.line + 1 < HEIGHT then clear else text[k].color;
      PaginateFrom(h, rest, clear, pad');
      EndsWithOneMore(PutAll(g, text), g.line, Fill(text[..k], pad), Paginate(rest, g.line + 1, clear, pad'), clear);
    }
  }

  lemma EndsWithOneMore(g: Log, from: nat, first: Row, part: seq<Row>, clear: byte)
    requires EndsWith(g, from + 1, part, clear) && g.rows[from] == first
    ensures EndsWith(g, from, [first] + part, clear)
  {
  }

  function BlankScreen(clear: byte): (rows: seq<Row>)
    ensures |rows| == HEIGHT && forall r :: 0 <= r < HEIGHT ==> rows[r] == Blank(clear)
  {
    seq(HEIGHT, _ => Blank(clear))
  }

  /** A cleared screen with the cursor at the origin. */
  function Cleared(clear: byte): (g: Log)
    ensures g.Ok() && Fresh(g, clear, clear)
  {
    Log(BlankScreen(clear), 0, 0, clear)
  }

  /** From a cleared screen, after any text in any colours, the log is the text
      laid out in rows of 80, wrapped only when a further byte needs the room,
      made up to a full screen with blanks. */
  lemma LogIsPagination(text: seq<Cell>, clear: byte)
    ensures PutAll(Cleared(clear), text).rows == PadScreen(Paginate(text, 0, clear, clear), clear)
  {
    var g := PutAll(Cleared(clear), text);
    PaginateFrom(Cleared(clear), text, clear, clear);
    var part := Paginate(text, 0, clear, clear);
    assert |g.rows| == |PadScreen(part, clear)|;
    forall r | 0 <= r < |g.rows| ensures g.rows[r] == PadScreen(part, clear)[r] {
      if r < |part| { assert g.rows[0 + r] == part[r]; } else { FillNothing(clear); }
    }
  }

  // ---------- Text without line breaks ----------

  /** A text without line breaks fills the cells of the screen one after
      another: byte j is in row j / 80, column j % 80. */
  lemma {:induction false} PlainText(text: seq<Cell>, n: nat, clear: byte, pad: byte, j: nat)
    requires j < |text| && forall i :: 0 <= i < |text| ==> text[i].ch != 10
    ensures j / 80 < |Paginate(text, n, clear, pad)|
    ensures Paginate(text, n, clear, pad)[j / 80][j % 80] == text[j]
    decreases |text|
  {
    hide Paginate;
    var k := RowLength(text);
    PaginateUnrolled(text, n, clear, pad);
    if j < k {
      assert j / 80 == 0 && j % 80 == j;
    } else {
      assert j / 80 == (j - 80) / 80 + 1 && j % 80 == (j - 80) % 80;
      PlainText(text[80..], n + 1, clear, if n + 1 < 25 then clear else text[80].color, j - 80);
    }
  }

  /** And takes no more rows than it needs. */
  lemma {:induction false} PlainTextRows(text: seq<Cell>, n: nat, clear: byte, pad: byte)
    requires forall i :: 0 <= i < |text| ==> text[i].ch != 10
    ensures |Paginate(text, n, clear, pad)| == if text == [] then 1 else (|text| + 79) / 80
    decreases |text|
  {
    hide Paginate;
    PaginateUnrolled(text, n, clear, pad);
    if RowLength(text) < |text| {
      PlainTextRows(text[80..], n + 1, clear, if n + 1 < 25 then clear else text[80].color);
    }
  }
}
