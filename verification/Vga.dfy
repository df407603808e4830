/**
 The text console of `kernel/src/io/vga.rs`. The specification is an unbounded log of rows whose last
 row is edited in place; the 25x80 screen is proved to show the end of that log.
 */
module Vga {
  import opened Machine

  const HEIGHT: nat := 25
  const WIDTH: nat := 80

  datatype Cell = Cell(ch: Byte, color: Byte)

  type Row = seq<Cell>

  function Blank(color: Byte): Cell {
    Cell(0x20, color)
  }

  function BlankRow(color: Byte): Row {
    seq(WIDTH, _ => Blank(color))
  }

  // ---------- the log ----------

  datatype Console = Console(log: seq<Row>, col: nat, color: Byte)

  predicate WellFormed(c: Console) {
    && c.log != [] && c.col < WIDTH
    && forall i :: 0 <= i < |c.log| ==> |c.log[i]| == WIDTH
  }

  function LastRow(c: Console): Row
    requires c.log != []
  {
    c.log[|c.log| - 1]
  }

  function WithLastRow(c: Console, row: Row): Console
    requires c.log != []
  {
    c.(log := c.log[..|c.log| - 1] + [row])
  }

  function NewLine(c: Console): Console {
    c.(log := c.log + [BlankRow(c.color)], col := 0)
  }

  function Deleted(row: Row, col: nat, color: Byte): Row
    requires col < |row|
  {
    row[..col] + row[col + 1..] + [Blank(color)]
  }

  lemma DeletedCell(row: Row, col: nat, color: Byte, c: nat)
    requires col < |row| && c < |row|
    ensures |Deleted(row, col, color)| == |row|
    ensures Deleted(row, col, color)[c] ==
            if c < col then row[c] else if c < |row| - 1 then row[c + 1] else Blank(color)
  {
  }

  const LF: Byte := 0x0a
  const CR: Byte := 0x0d
  const BACKSPACE: Byte := 0x08
  const DELETE: Byte := 0x7f

  /** What one byte does to the log. */
  function Put(c: Console, b: Byte): (c': Console)
    requires WellFormed(c)
    ensures WellFormed(c')
  {
    if b == LF then NewLine(c)
    else if b == CR then c.(col := 0)
    else if b == BACKSPACE then
      if c.col > 0 then WithLastRow(c, LastRow(c)[c.col - 1 := Blank(c.color)]).(col := c.col - 1) else c
    else if b == DELETE then WithLastRow(c, Deleted(LastRow(c), c.col, c.color))
    else
      var typed := WithLastRow(c, LastRow(c)[c.col := Cell(b, c.color)]);
      if c.col == WIDTH - 1 then NewLine(typed) else typed.(col := c.col + 1)
  }

  function PutAll(c: Console, s: seq<Byte>): (c': Console)
    requires WellFormed(c)
    ensures WellFormed(c')
  {
    if s == [] then c else Put(PutAll(c, s[..|s| - 1]), s[|s| - 1])
  }

  lemma PutAllSnoc(c: Console, s: seq<Byte>, i: nat)
    requires WellFormed(c) && i < |s|
    ensures PutAll(c, s[..i + 1]) == Put(PutAll(c, s[..i]), s[i])
  {
    assert s[..i + 1][..i] == s[..i];
  }

  // ---------- the screen ----------

  class VgaBuffer {
    var colPos: nat
    var curColor: Byte
    const buf: array2<Cell>
    var cursorLow: Byte // CRT controller register 0x0F
    var cursorHigh: Byte // CRT controller register 0x0E
    ghost var cursorSet: bool
    ghost var log: seq<Row>

    /** The screen shows the last 25 rows of `l`. */
    ghost predicate Shows(l: seq<Row>)
      requires buf.Length0 == HEIGHT && buf.Length1 == WIDTH
      requires forall i :: 0 <= i < |l| ==> |l[i]| == WIDTH
      reads buf
    {
      && |l| >= HEIGHT
      && forall r, c :: 0 <= r < HEIGHT && 0 <= c < WIDTH ==> buf[r, c] == l[|l| - HEIGHT + r][c]
    }

    ghost function View(): Console
      reads this
    {
      Console(log, colPos, curColor)
    }

    /** The screen shows the last 25 rows of the log, and the cursor is where the column is. */
    ghost predicate Valid()
      reads this, buf
    {
      && buf.Length0 == HEIGHT && buf.Length1 == WIDTH
      && WellFormed(View()) && Shows(log)
      && CursorOk()
    }

    ghost predicate CursorOk()
      reads this
    {
      cursorSet ==> cursorLow + 256 * cursorHigh == (HEIGHT - 1) * WIDTH + colPos
    }

    /** `VgaBuffer::new`, over whatever the video memory already shows. */
    constructor (buffer: array2<Cell>)
      requires buffer.Length0 == HEIGHT && buffer.Length1 == WIDTH
      ensures Valid() && buf == buffer && |log| == HEIGHT && colPos == 0 && curColor == 15 && !cursorSet
    {
      colPos := 0;
      curColor := 15;
      buf := buffer;
      cursorLow, cursorHigh, cursorSet := 0, 0, false;
      log := seq(HEIGHT, r requires 0 <= r < HEIGHT reads buffer =>
        seq(WIDTH, c requires 0 <= c < WIDTH reads buffer => buffer[r, c]));
    }

    method UpdateCursor(height: nat, width: nat)
      requires height < HEIGHT && width < WIDTH
      modifies this`cursorLow, this`cursorHigh, this`cursorSet
      ensures cursorSet && cursorLow + 256 * cursorHigh == height * WIDTH + width
    {
      var pos := height * WIDTH + width;
      cursorLow := pos % 256;
      cursorHigh := pos / 256 % 256;
      cursorSet := true;
    }

    method ClearRow(row: nat)
      requires buf.Length0 == HEIGHT && buf.Length1 == WIDTH && row < HEIGHT
      modifies buf
      ensures forall r, c :: 0 <= r < HEIGHT && 0 <= c < WIDTH ==>
                buf[r, c] == if r == row then Blank(curColor) else old(buf[r, c])
    {
      for col := 0 to WIDTH
        invariant forall r, c :: 0 <= r < HEIGHT && 0 <= c < WIDTH ==>
                    buf[r, c] == if r == row && c < col then Blank(curColor) else old(buf[r, c])
      {
        buf[row, col] := Blank(curColor);
      }
    }

    /** The row loop of `new_line` and the clearing: exactly one row of scrolling. */
    method Scroll()
      requires buf.Length0 == HEIGHT && buf.Length1 == WIDTH
      modifies buf
      ensures forall r, c :: 0 <= r < HEIGHT && 0 <= c < WIDTH ==>
                buf[r, c] == if r == HEIGHT - 1 then Blank(curColor) else old(buf[r + 1, c])
    {
      for row := 1 to HEIGHT
        invariant forall r, c :: 0 <= r < HEIGHT && 0 <= c < WIDTH ==>
                    buf[r, c] == if r < row - 1 then old(buf[r + 1, c]) else old(buf[r, c])
      {
        forall c | 0 <= c < WIDTH {
          buf[row - 1, c] := buf[row, c];
        }
      }
      ClearRow(HEIGHT - 1);
    }

    method DoNewLine()
      requires Valid()
      modifies this, buf
      ensures Valid() && View() == NewLine(old(View())) && cursorSet
    {
      Scroll();
      log := log + [BlankRow(curColor)];
      colPos := 0;
      UpdateCursor(HEIGHT - 1, colPos);
    }

    /** Writes one cell of the bottom row. */
    method WriteCell(col: nat, cell: Cell)
      requires Valid() && col < WIDTH
      modifies this`log, buf
      ensures Valid() && View() == WithLastRow(old(View()), LastRow(old(View()))[col := cell])
    {
      buf[HEIGHT - 1, col] := cell;
      log := log[..|log| - 1] + [LastRow(View())[col := cell]];
    }

    /** `copy_within(col + 1.., col)` on the bottom row: a move to the left, so cells are copied upwards. */
    method CopyLeft(col: nat)
      requires buf.Length0 == HEIGHT && buf.Length1 == WIDTH && col < WIDTH
      modifies buf
      ensures forall r, c :: 0 <= r < HEIGHT && 0 <= c < WIDTH ==>
                buf[r, c] == if r == HEIGHT - 1 && col <= c < WIDTH - 1 then old(buf[r, c + 1]) else old(buf[r, c])
    {
      for src := col + 1 to WIDTH
        invariant forall r, c :: 0 <= r < HEIGHT && 0 <= c < WIDTH ==>
                    buf[r, c] == if r == HEIGHT - 1 && col <= c < src - 1 then old(buf[r, c + 1]) else old(buf[r, c])
      {
        buf[HEIGHT - 1, src - 1] := buf[HEIGHT - 1, src];
      }
    }

    method DeleteAt(col: nat)
      requires Valid() && col < WIDTH
      modifies this`log, buf
      ensures Valid() && View() == WithLastRow(old(View()), Deleted(LastRow(old(View())), col, curColor))
    {
      CopyLeft(col);
      buf[HEIGHT - 1, WIDTH - 1] := Blank(curColor);
      ghost var row := Deleted(LastRow(View()), col, curColor);
      forall c | 0 <= c < WIDTH
        ensures |row| == WIDTH && buf[HEIGHT - 1, c] == row[c]
      {
        hide Deleted;
        DeletedCell(LastRow(View()), col, curColor, c);
      }
      log := log[..|log| - 1] + [row];
    }

    method Putc(c: Byte)
      requires Valid()
      modifies this, buf
      ensures Valid() && View() == Put(old(View()), c)
      ensures cursorSet <==> old(cursorSet) || !(c == 0x7f || (c == 0x08 && old(colPos) == 0))
      ensures !cursorSet ==> cursorLow == old(cursorLow) && cursorHigh == old(cursorHigh)
    {
      if c == LF {
        DoNewLine();
      } else if c == CR {
        colPos := 0;
        UpdateCursor(HEIGHT - 1, colPos);
      } else if c == BACKSPACE {
        if colPos > 0 {
          WriteCell(colPos - 1, Blank(curColor));
          colPos := colPos - 1;
          UpdateCursor(HEIGHT - 1, colPos);
        }
      } else if c == DELETE {
        DeleteAt(colPos);
      } else {
        WriteCell(colPos, Cell(c, curColor));
        if colPos == WIDTH - 1 {
          DoNewLine();
        } else {
          colPos := colPos + 1;
          UpdateCursor(HEIGHT - 1, colPos);
        }
      }
    }

    /** Every byte stream: the screen stays the end of the log that the bytes produce. */
    method WriteBytes(s: seq<Byte>)
      requires Valid()
      modifies this, buf
      ensures Valid() && View() == PutAll(old(View()), s)
      ensures forall r, c :: 0 <= r < 25 && 0 <= c < 80 ==> buf[r, c] == log[|log| - 25 + r][c]
      ensures cursorSet ==> cursorLow + 256 * cursorHigh == 24 * 80 + colPos
      ensures old(cursorSet) || (exists i :: 0 <= i < |s| && s[i] !in {0x7f, 0x08}) ==> cursorSet
    {
      hide Put;
      for i := 0 to |s|
        invariant Valid() && View() == PutAll(old(View()), s[..i])
        invariant old(cursorSet) || (exists j :: 0 <= j < i && s[j] !in {0x7f, 0x08}) ==> cursorSet
      {
        PutAllSnoc(old(View()), s, i);
        Putc(s[i]);
      }
      assert s[..|s|] == s;
    }
  }
}
