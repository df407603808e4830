/**
 What streams of bytes do to the console's log: text is laid out in lines wrapped at 80 columns,
 scrolled-off rows never change, and the editing keys have closed forms.
 */
module ConsoleLaws {
  import opened Machine
  import opened Vga

  predicate Printable(b: Byte) {
    b !in {LF, CR, BACKSPACE, DELETE}
  }

  /** One byte, on any row and at any column: what cell `j` of the row holds afterwards, where the column is, and
      when a blank row is added. */
  lemma PutCellByCell(c: Console, b: Byte, j: nat)
    requires WellFormed(c) && j < 80
    ensures var c', n := Put(c, b), |c.log|;
            var printable := b !in {0x0a, 0x0d, 0x08, 0x7f};
            && c'.color == c.color && c'.log[..n - 1] == c.log[..n - 1]
            && (if b == 0x0a || (printable && c.col == 79)
                then c'.log[n..] == [seq(80, _ => Cell(0x20, c.color))] && c'.col == 0
                else
                  && |c'.log| == n
                  && c'.col == if printable then c.col + 1
                               else if b == 0x0d then 0
                               else if b == 0x08 && c.col > 0 then c.col - 1
                               else c.col)
            && c'.log[n - 1][j] ==
                 if printable && j == c.col then Cell(b, c.color)
                 else if b == 0x08 && j == c.col - 1 then Cell(0x20, c.color)
                 else if b == 0x7f && j >= c.col then if j < 79 then c.log[n - 1][j + 1] else Cell(0x20, c.color)
                 else c.log[n - 1][j]
  {
    if b == 0x7f {
      DeletedCell(LastRow(c), c.col, c.color, j);
    }
  }

  lemma {:induction false} PutAllConcat(c: Console, s: seq<Byte>, t: seq<Byte>)
    requires WellFormed(c)
    ensures PutAll(c, s + t) == PutAll(PutAll(c, s), t)
    decreases |t|
  {
    if t == [] {
      assert s + t == s;
    } else {
      PutAllConcat(c, s, t[..|t| - 1]);
      assert (s + t)[..|s + t| - 1] == s + t[..|t| - 1];
    }
  }

  /** Whatever is written, rows above the last one are never touched again and no row is ever removed. */
  lemma {:induction false} HistoryIsFrozen(c: Console, s: seq<Byte>)
    requires WellFormed(c)
    ensures |PutAll(c, s).log| >= |c.log|
    ensures PutAll(c, s).log[..|c.log| - 1] == c.log[..|c.log| - 1]
    ensures PutAll(c, s).color == c.color
  {
    if s != [] {
      HistoryIsFrozen(c, s[..|s| - 1]);
    }
  }

  lemma PrintableStep(c: Console, b: Byte)
    requires WellFormed(c) && Printable(b)
    ensures Put(c, b).col == (c.col + 1) % WIDTH
    ensures |Put(c, b).log| == |c.log| + if c.col == WIDTH - 1 then 1 else 0
  {
  }

  /** `n` printable bytes from column `col` scroll `(col + n) div 80` times and end at `(col + n) mod 80`. */
  lemma {:induction false} PrintableAdvance(c: Console, s: seq<Byte>)
    requires WellFormed(c) && forall i :: 0 <= i < |s| ==> Printable(s[i])
    ensures PutAll(c, s).col == (c.col + |s|) % WIDTH
    ensures |PutAll(c, s).log| == |c.log| + (c.col + |s|) / WIDTH
  {
    if s != [] {
      hide Put;
      PrintableAdvance(c, s[..|s| - 1]);
      PrintableStep(PutAll(c, s[..|s| - 1]), s[|s| - 1]);
      OneFurther(c.col + |s| - 1);
    }
  }

  lemma OneFurther(x: nat)
    ensures (x + 1) % WIDTH == if x % WIDTH == WIDTH - 1 then 0 else x % WIDTH + 1
    ensures (x + 1) / WIDTH == x / WIDTH + if x % WIDTH == WIDTH - 1 then 1 else 0
  {
  }

  // ---------- layout ----------

  predicate IsText(s: seq<Byte>) {
    forall i :: 0 <= i < |s| ==> s[i] == LF || Printable(s[i])
  }

  /** The lines of a text: what stands between newlines. */
  function Lines(s: seq<Byte>): (ls: seq<seq<Byte>>)
    ensures ls != []
  {
    if s == [] then [[]]
    else
      var ls, b := Lines(s[..|s| - 1]), s[|s| - 1];
      if b == LF then ls + [[]] else ls[..|ls| - 1] + [ls[|ls| - 1] + [b]]
  }

  /** A line cut into full rows and a last row with room left, which may be empty. */
  function Wrap(line: seq<Byte>): (rows: seq<seq<Byte>>)
    ensures rows != []
    ensures |rows[|rows| - 1]| < WIDTH
  {
    if |line| < WIDTH then [line] else [line[..WIDTH]] + Wrap(line[WIDTH..])
  }

  function WrapLines(ls: seq<seq<Byte>>): seq<seq<Byte>> {
    if ls == [] then [] else WrapLines(ls[..|ls| - 1]) + Wrap(ls[|ls| - 1])
  }

  /** The rows of a text, independently of any console. */
  function Layout(s: seq<Byte>): (rows: seq<seq<Byte>>)
    ensures rows != [] && |rows[|rows| - 1]| < WIDTH
  {
    WrapLines(Lines(s))
  }

  function Flatten(rows: seq<seq<Byte>>): seq<Byte> {
    if rows == [] then [] else rows[0] + Flatten(rows[1..])
  }

  /** Wrapping loses nothing and leaves no row short except the last. */
  lemma {:induction false} WrapIsExact(line: seq<Byte>)
    ensures Flatten(Wrap(line)) == line
    ensures forall i :: 0 <= i < |Wrap(line)| - 1 ==> |Wrap(line)[i]| == WIDTH
    decreases |line|
  {
    if |line| < WIDTH {
      assert Flatten([line]) == line + Flatten([]);
    } else {
      WrapIsExact(line[WIDTH..]);
      assert Wrap(line)[1..] == Wrap(line[WIDTH..]);
    }
  }

  function Join(ls: seq<seq<Byte>>): seq<Byte>
    requires ls != []
  {
    if |ls| == 1 then ls[0] else Join(ls[..|ls| - 1]) + [LF] + ls[|ls| - 1]
  }

  lemma JoinSnoc(ls: seq<seq<Byte>>, line: seq<Byte>)
    requires ls != []
    ensures Join(ls + [line]) == Join(ls) + [LF] + line
  {
    assert (ls + [line])[..|ls|] == ls;
  }

  /** A character added to the last line is added to the text. */
  lemma JoinExtend(ls: seq<seq<Byte>>, line: seq<Byte>, b: Byte)
    ensures Join(ls + [line + [b]]) == Join(ls + [line]) + [b]
  {
    if ls == [] {
      assert [] + [line] == [line] && [] + [line + [b]] == [line + [b]];
    } else {
      hide Join;
      JoinSnoc(ls, line);
      JoinSnoc(ls, line + [b]);
    }
  }

  lemma {:induction false} LinesHoldNoNewline(s: seq<Byte>)
    ensures forall i :: 0 <= i < |Lines(s)| ==> LF !in Lines(s)[i]
  {
    if s != [] {
      LinesHoldNoNewline(s[..|s| - 1]);
    }
  }

  /** The lines of a text, joined by newlines, are the text, and no line holds a newline. */
  lemma {:induction false} LinesAreExact(s: seq<Byte>)
    ensures Join(Lines(s)) == s
    ensures forall i :: 0 <= i < |Lines(s)| ==> LF !in Lines(s)[i]
  {
    LinesHoldNoNewline(s);
    if s != [] {
      var front, b := s[..|s| - 1], s[|s| - 1];
      LinesAreExact(front);
      hide Join;
      assert s == front + [b];
      if b == LF {
        JoinSnoc(Lines(front), []);
      } else {
        var ls := Lines(front);
        assert ls == ls[..|ls| - 1] + [ls[|ls| - 1]];
        JoinExtend(ls[..|ls| - 1], ls[|ls| - 1], b);
      }
    }
  }

  function RenderCell(chunk: seq<Byte>, color: Byte, i: nat): Cell {
    if i < |chunk| then Cell(chunk[i], color) else Blank(color)
  }

  /** A row of text on the screen: its characters, then blanks. */
  function Render(chunk: seq<Byte>, color: Byte): (row: Row)
    ensures |row| == WIDTH
  {
    seq(WIDTH, i requires 0 <= i < WIDTH => RenderCell(chunk, color, i))
  }

  function RenderAll(rows: seq<seq<Byte>>, color: Byte): seq<Row> {
    seq(|rows|, i requires 0 <= i < |rows| => Render(rows[i], color))
  }

  /** Appending one character to a line: it goes to the last row, and a row it fills is followed by an
      empty one. */
  function Extend(rows: seq<seq<Byte>>, b: Byte): seq<seq<Byte>>
    requires rows != []
  {
    var full := rows[..|rows| - 1] + [rows[|rows| - 1] + [b]];
    if |rows[|rows| - 1]| + 1 < WIDTH then full else full + [[]]
  }

  lemma {:induction false} WrapAppend(line: seq<Byte>, b: Byte)
    ensures Wrap(line + [b]) == Extend(Wrap(line), b)
    decreases |line|
  {
    if |line| >= WIDTH {
      WrapAppend(line[WIDTH..], b);
      assert (line + [b])[..WIDTH] == line[..WIDTH];
      assert (line + [b])[WIDTH..] == line[WIDTH..] + [b];
      ExtendAfter([line[..WIDTH]], Wrap(line[WIDTH..]), b);
    } else if |line| == WIDTH - 1 {
      assert (line + [b])[..WIDTH] == line + [b];
      assert Wrap((line + [b])[WIDTH..]) == [[]];
    }
  }

  lemma ExtendAfter(before: seq<seq<Byte>>, rows: seq<seq<Byte>>, b: Byte)
    requires rows != []
    ensures Extend(before + rows, b) == before + Extend(rows, b)
  {
  }

  lemma LayoutAppend(s: seq<Byte>, b: Byte)
    ensures Layout(s + [b]) == if b == LF then Layout(s) + [[]] else Extend(Layout(s), b)
  {
    assert (s + [b])[..|s|] == s;
    var ls := Lines(s);
    if b == LF {
      assert (ls + [[]])[..|ls|] == ls;
      assert Wrap([]) == [[]];
    } else {
      var front, last := ls[..|ls| - 1], ls[|ls| - 1];
      assert Lines(s + [b])[..|ls| - 1] == front;
      WrapAppend(last, b);
      ExtendAfter(WrapLines(front), Wrap(last), b);
    }
  }

  /** The log is some rows, then the rows of a text, and the column is where the text ends. */
  ghost predicate Shown(above: seq<Row>, rows: seq<seq<Byte>>, c: Console)
    requires rows != []
  {
    c.log == above + RenderAll(rows, c.color) && c.col == |rows[|rows| - 1]|
  }

  lemma TypedCell(chunk: seq<Byte>, color: Byte, b: Byte)
    requires |chunk| < WIDTH
    ensures Render(chunk, color)[|chunk| := Cell(b, color)] == Render(chunk + [b], color)
  {
  }

  lemma EmptyRow(color: Byte)
    ensures Render([], color) == BlankRow(color)
  {
  }

  lemma RenderSnoc(rows: seq<seq<Byte>>, chunk: seq<Byte>, color: Byte)
    ensures RenderAll(rows + [chunk], color) == RenderAll(rows, color) + [Render(chunk, color)]
  {
  }

  lemma ShownNewline(above: seq<Row>, rows: seq<seq<Byte>>, c: Console)
    requires WellFormed(c) && rows != [] && Shown(above, rows, c)
    ensures Shown(above, rows + [[]], Put(c, LF))
  {
    EmptyRow(c.color);
    RenderSnoc(rows, [], c.color);
  }

  /** The last row is where the next character of the text goes. */
  lemma TypedLog(above: seq<Row>, rows: seq<seq<Byte>>, c: Console, b: Byte)
    requires rows != [] && |rows[|rows| - 1]| < WIDTH && Shown(above, rows, c)
    ensures c.log != [] && |LastRow(c)| == WIDTH
    ensures WithLastRow(c, LastRow(c)[c.col := Cell(b, c.color)]).log ==
            above + RenderAll(rows[..|rows| - 1] + [rows[|rows| - 1] + [b]], c.color)
  {
    var front, last := rows[..|rows| - 1], rows[|rows| - 1];
    assert rows == front + [last];
    RenderSnoc(front, last, c.color);
    RenderSnoc(front, last + [b], c.color);
    TypedCell(last, c.color, b);
    assert c.log[..|c.log| - 1] == above + RenderAll(front, c.color);
  }

  lemma ShownPrintable(above: seq<Row>, rows: seq<seq<Byte>>, c: Console, b: Byte)
    requires WellFormed(c) && rows != [] && Shown(above, rows, c) && Printable(b)
    ensures Shown(above, Extend(rows, b), Put(c, b))
  {
    TypedLog(above, rows, c, b);
    if c.col == WIDTH - 1 {
      EmptyRow(c.color);
      RenderSnoc(rows[..|rows| - 1] + [rows[|rows| - 1] + [b]], [], c.color);
    }
  }

  /** Text of printable bytes and newlines, from column 0 of a blank row, comes out exactly as the
      independent layout says: lines wrapped at 80 columns, in order, nothing lost. */
  lemma {:induction false} TextIsLaidOut(c: Console, s: seq<Byte>)
    requires WellFormed(c) && c.col == 0 && LastRow(c) == BlankRow(c.color) && IsText(s)
    ensures Shown(c.log[..|c.log| - 1], Layout(s), PutAll(c, s)) && PutAll(c, s).color == c.color
  {
    var above := c.log[..|c.log| - 1];
    if s == [] {
      assert Wrap([]) == [[]] && Layout([]) == [[]];
      EmptyRow(c.color);
      hide Render;
      assert RenderAll([[]], c.color) == [Render([], c.color)];
      assert c.log == above + [LastRow(c)];
    } else {
      var front, b := s[..|s| - 1], s[|s| - 1];
      hide Shown, Layout;
      TextIsLaidOut(c, front);
      assert s == front + [b];
      LayoutAppend(front, b);
      if b == LF {
        ShownNewline(above, Layout(front), PutAll(c, front));
      } else {
        ShownPrintable(above, Layout(front), PutAll(c, front), b);
      }
    }
  }

  // ---------- editing ----------

  function Repeat(b: Byte, k: nat): seq<Byte> {
    seq(k, _ => b)
  }

  lemma RepeatSnoc(b: Byte, k: nat)
    requires k > 0
    ensures Repeat(b, k)[..k - 1] == Repeat(b, k - 1) && Repeat(b, k)[k - 1] == b
  {
  }

  /** `k` printable bytes that stay within the row overwrite the `k` cells from the column on. */
  lemma {:induction false} Typing(c: Console, s: seq<Byte>)
    requires WellFormed(c) && c.col + |s| < WIDTH && forall i :: 0 <= i < |s| ==> Printable(s[i])
    ensures var c' := PutAll(c, s);
            && c'.col == c.col + |s| && c'.color == c.color
            && |c'.log| == |c.log| && c'.log[..|c.log| - 1] == c.log[..|c.log| - 1]
            && forall j :: 0 <= j < WIDTH ==>
                 LastRow(c')[j] == if c.col <= j < c.col + |s| then Cell(s[j - c.col], c.color) else LastRow(c)[j]
  {
    if s != [] {
      Typing(c, s[..|s| - 1]);
    }
  }

  /** After a carriage return, text that stays within the row overwrites it from the left. */
  lemma ReturnThenTyping(c: Console, s: seq<Byte>)
    requires WellFormed(c) && |s| < WIDTH && forall i :: 0 <= i < |s| ==> Printable(s[i])
    ensures var c' := PutAll(c, [CR] + s);
            && c'.col == |s| && c'.color == c.color
            && |c'.log| == |c.log| && c'.log[..|c.log| - 1] == c.log[..|c.log| - 1]
            && forall j :: 0 <= j < WIDTH ==>
                 LastRow(c')[j] == if j < |s| then Cell(s[j], c.color) else LastRow(c)[j]
  {
    PutAllConcat(c, [CR], s);
    assert PutAll(c, [CR]) == Put(PutAll(c, []), CR);
    Typing(c.(col := 0), s);
  }

  /** `k` backspaces blank the cells before the column, up to the start of the row; there they do nothing. */
  lemma {:induction false} Backspaces(c: Console, k: nat)
    requires WellFormed(c)
    ensures var c' := PutAll(c, Repeat(BACKSPACE, k));
            var left := if k <= c.col then c.col - k else 0;
            && c'.col == left && c'.color == c.color
            && |c'.log| == |c.log| && c'.log[..|c.log| - 1] == c.log[..|c.log| - 1]
            && forall j :: 0 <= j < WIDTH ==>
                 LastRow(c')[j] == if left <= j < c.col then Blank(c.color) else LastRow(c)[j]
  {
    if k > 0 {
      hide Put;
      RepeatSnoc(BACKSPACE, k);
      Backspaces(c, k - 1);
      var c1 := PutAll(c, Repeat(BACKSPACE, k - 1));
      forall j | 0 <= j < WIDTH
        ensures LastRow(Put(c1, BACKSPACE))[j] ==
                if j == c1.col - 1 then Blank(c.color) else LastRow(c1)[j]
      {
        PutCellByCell(c1, BACKSPACE, j);
      }
      PutCellByCell(c1, BACKSPACE, 0);
    }
  }

  /** Typing `k` characters within the row and backspacing `k` times puts the column back and blanks
      exactly the cells typed over. */
  lemma BackspacesUndoTyping(c: Console, s: seq<Byte>)
    requires WellFormed(c) && c.col + |s| < WIDTH && forall i :: 0 <= i < |s| ==> Printable(s[i])
    ensures var c' := PutAll(c, s + Repeat(BACKSPACE, |s|));
            && c'.col == c.col && c'.color == c.color
            && |c'.log| == |c.log| && c'.log[..|c.log| - 1] == c.log[..|c.log| - 1]
            && forall j :: 0 <= j < WIDTH ==>
                 LastRow(c')[j] == if c.col <= j < c.col + |s| then Blank(c.color) else LastRow(c)[j]
  {
    PutAllConcat(c, s, Repeat(BACKSPACE, |s|));
    Typing(c, s);
    Backspaces(PutAll(c, s), |s|);
  }

  /** Cell `j` of a row whose part from `col` on was pulled `k` cells to the left. */
  function PulledLeft(row: Row, col: nat, k: nat, color: Byte, j: nat): Cell
    requires |row| == WIDTH && j < WIDTH
  {
    if j < col then row[j] else if j + k < WIDTH then row[j + k] else Blank(color)
  }

  lemma DeletedIsPulledLeft(row: Row, col: nat, color: Byte, j: nat)
    requires |row| == WIDTH && col < WIDTH && j < WIDTH
    ensures Deleted(row, col, color)[j] == PulledLeft(row, col, 1, color, j)
  {
  }

  /** `k` deletes pull the rest of the row `k` cells to the left and fill it with blanks. */
  lemma {:induction false} Deletes(c: Console, k: nat)
    requires WellFormed(c)
    ensures var c' := PutAll(c, Repeat(DELETE, k));
            && c'.col == c.col && c'.color == c.color
            && |c'.log| == |c.log| && c'.log[..|c.log| - 1] == c.log[..|c.log| - 1]
            && forall j :: 0 <= j < WIDTH ==> LastRow(c')[j] == PulledLeft(LastRow(c), c.col, k, c.color, j)
  {
    if k > 0 {
      RepeatSnoc(DELETE, k);
      Deletes(c, k - 1);
      var c1, c' := PutAll(c, Repeat(DELETE, k - 1)), PutAll(c, Repeat(DELETE, k));
      assert LastRow(c') == Deleted(LastRow(c1), c.col, c.color);
      forall j | 0 <= j < WIDTH
        ensures LastRow(c')[j] == PulledLeft(LastRow(c), c.col, k, c.color, j)
      {
        DeletedIsPulledLeft(LastRow(c1), c.col, c.color, j);
      }
    }
  }
}
