/** The 25 by 80 console of student-distrib/lib.c as a window on an unbounded text. */
module Console {
  import opened Bytes

  const NUM_ROWS := 25
  const NUM_COLS := 80
  const LAST_ROW := 24
  const ATTRIB: byte := 7
  const RETURN: byte := 13

  datatype Cell = Cell(ch: byte, attr: byte)

  type Row = seq<Cell>

  const BLANK := Cell(SPACE, ATTRIB)

  ghost function BlankRow(): (row: Row)
    ensures |row| == NUM_COLS && forall c | 0 <= c < NUM_COLS :: row[c] == BLANK
  {
    seq(NUM_COLS, _ => BLANK)
  }

  predicate IsNewline(c: byte) {
    c == NEWLINE || c == RETURN
  }

  // ---------------------------------------------------------------------
  // The unbounded text
  // ---------------------------------------------------------------------

  /** All rows ever shown since the last `clear`; the screen shows the last 25. Column 80 stands for a full row. */
  datatype Text = Text(rows: seq<Row>, row: nat, col: nat)

  ghost predicate TextInv(t: Text) {
    && NUM_ROWS <= |t.rows| && |t.rows| - NUM_ROWS <= t.row < |t.rows| && t.col <= NUM_COLS
    && forall r | 0 <= r < |t.rows| :: |t.rows[r]| == NUM_COLS
  }

  ghost function Top(t: Text): (r: int) {
    |t.rows| - NUM_ROWS
  }

  /** The cell of the text that the screen shows at row `r` and column `c`. */
  ghost function Shown(t: Text, r: int, c: int): (cell: Cell)
    requires TextInv(t) && 0 <= r < NUM_ROWS && 0 <= c < NUM_COLS
  {
    t.rows[Top(t) + r][c]
  }

  ghost function Cleared(): (t: Text)
    ensures TextInv(t)
  {
    Text(seq(NUM_ROWS, _ => BlankRow()), 0, 0)
  }

  ghost function NewRow(t: Text): (t': Text)
    requires TextInv(t)
    ensures TextInv(t')
  {
    Text(if t.row + 1 == |t.rows| then t.rows + [BlankRow()] else t.rows, t.row + 1, 0)
  }

  /** A new row below the screen moves all rows up. */
  lemma NewRowMovesUp(t: Text, u: Text)
    requires TextInv(t) && t.row + 1 == |t.rows| && u == NewRow(t)
    ensures Top(u) == Top(t) + 1
    ensures forall r, c | 0 <= r < LAST_ROW && 0 <= c < NUM_COLS :: Shown(u, r, c) == Shown(t, r + 1, c)
    ensures forall c | 0 <= c < NUM_COLS :: Shown(u, LAST_ROW, c) == BLANK
  {
  }

  ghost function SetCell(t: Text, r: nat, c: nat, cell: Cell): (t': Text)
    requires TextInv(t) && r < |t.rows| && c < NUM_COLS
    ensures TextInv(t')
  {
    t.(rows := t.rows[r := t.rows[r][c := cell]])
  }

  /** A cell on the screen changes that cell of the screen. */
  lemma SetCellShown(t: Text, y: nat, x: nat, cell: Cell)
    requires TextInv(t) && y < NUM_ROWS && x < NUM_COLS
    ensures var u := SetCell(t, Top(t) + y, x, cell);
            && Top(u) == Top(t)
            && forall r, c | 0 <= r < NUM_ROWS && 0 <= c < NUM_COLS ::
                 Shown(u, r, c) == if r == y && c == x then cell else Shown(t, r, c)
  {
  }

  /** The effect of a character. */
  ghost function Put(t: Text, c: byte): (t': Text)
    requires TextInv(t)
    ensures TextInv(t')
  {
    if IsNewline(c) then NewRow(t)
    else
      var u := if t.col >= NUM_COLS then NewRow(t) else t;
      SetCell(u, u.row, u.col, Cell(c, ATTRIB)).(col := u.col + 1)
  }

  /** The effect of a backspace: nothing at the first cell of the screen. */
  ghost function Erase(t: Text): (t': Text)
    requires TextInv(t)
    ensures TextInv(t')
  {
    if t.col == 0 && t.row == Top(t) then t
    else
      var r: nat := if t.col == 0 then t.row - 1 else t.row;
      var c: nat := if t.col == 0 then NUM_COLS - 1 else t.col - 1;
      SetCell(t, r, c, BLANK).(row := r, col := c)
  }

  // ---------------------------------------------------------------------
  // The screen
  // ---------------------------------------------------------------------

  /** `video[r, c]` is the character and attribute at offset `2 * (80 * r + c)` of video memory;
      `x` and `y` are the cursor of the current terminal. */
  class Screen {
    const video: array2<Cell>
    var x: int
    var y: int
    ghost var text: Text

    ghost predicate Valid()
      reads this, video
    {
      && video.Length0 == NUM_ROWS && video.Length1 == NUM_COLS
      && TextInv(text)
      && x == text.col && y == text.row - Top(text)
      && forall r, c | 0 <= r < NUM_ROWS && 0 <= c < NUM_COLS :: video[r, c] == Shown(text, r, c)
    }

    /** `clear`. */
    method Clear()
      requires video.Length0 == NUM_ROWS && video.Length1 == NUM_COLS
      modifies this, video
      ensures Valid() && text == Cleared()
      ensures x == 0 && y == 0 && forall r, c | 0 <= r < 25 && 0 <= c < 80 :: video[r, c] == Cell(32, 7)
    {
      for r := 0 to NUM_ROWS
        invariant forall i, c | 0 <= i < r && 0 <= c < NUM_COLS :: video[i, c] == BLANK
      {
        for c := 0 to NUM_COLS
          invariant forall i, j | 0 <= i < r && 0 <= j < NUM_COLS :: video[i, j] == BLANK
          invariant forall j | 0 <= j < c :: video[r, j] == BLANK
        {
          video[r, c] := BLANK;
        }
      }
      x, y := 0, 0;
      text := Cleared();
    }

    /** The shifting branch of `scroll`: every row takes the contents of the row below, the last one becomes blank. */
    method ShiftUp()
      requires video.Length0 == NUM_ROWS && video.Length1 == NUM_COLS
      modifies video
      ensures forall r, c | 0 <= r < LAST_ROW && 0 <= c < NUM_COLS :: video[r, c] == old(video[r + 1, c])
      ensures forall c | 0 <= c < NUM_COLS :: video[LAST_ROW, c] == BLANK
    {
      for i := 0 to NUM_COLS
        invariant forall r, c | 0 <= r < LAST_ROW && 0 <= c < i :: video[r, c] == old(video[r + 1, c])
        invariant forall c | 0 <= c < i :: video[LAST_ROW, c] == old(video[LAST_ROW, c])
        invariant forall r, c | 0 <= r < NUM_ROWS && i <= c < NUM_COLS :: video[r, c] == old(video[r, c])
      {
        for j := 0 to LAST_ROW
          invariant forall r, c | 0 <= r < LAST_ROW && 0 <= c < i :: video[r, c] == old(video[r + 1, c])
          invariant forall r | 0 <= r < j :: video[r, i] == old(video[r + 1, i])
          invariant forall r | j <= r < NUM_ROWS :: video[r, i] == old(video[r, i])
          invariant forall c | 0 <= c < i :: video[LAST_ROW, c] == old(video[LAST_ROW, c])
          invariant forall r, c | 0 <= r < NUM_ROWS && i < c < NUM_COLS :: video[r, c] == old(video[r, c])
        {
          video[j, i] := video[j + 1, i];
        }
      }
      for i := 0 to NUM_COLS
        invariant forall r, c | 0 <= r < LAST_ROW && 0 <= c < NUM_COLS :: video[r, c] == old(video[r + 1, c])
        invariant forall c | 0 <= c < i :: video[LAST_ROW, c] == BLANK
      {
        video[LAST_ROW, i] := BLANK;
      }
    }

    /** ... with the cursor at the start of the new row. */
    method ScrollUp()
      requires Valid() && y >= LAST_ROW
      modifies this, video
      ensures Valid() && text == NewRow(old(text))
    {
      NewRowMovesUp(text, NewRow(text));
      ShiftUp();
      x := 0;
      text := NewRow(text);
    }

    /** `scroll`: a newline, whatever the state. It calls `putc`, which calls it back only from the last row. */
    method Scroll()
      requires Valid()
      modifies this, video
      ensures Valid() && text == NewRow(old(text))
      decreases if y >= LAST_ROW then 0 else 2
    {
      if y >= LAST_ROW {
        ScrollUp();
      } else {
        Putc(NEWLINE);
      }
    }

    /** `putc`. */
    method Putc(c: byte)
      requires Valid()
      modifies this, video
      ensures Valid() && text == Put(old(text), c)
      decreases 1
    {
      if c == NEWLINE || c == RETURN {
        BreakLine();
      } else {
        if x >= NUM_COLS {
          BreakLine();
        }
        WriteCell(c);
      }
    }

    /** A character in the cell under the cursor. */
    method WriteCell(c: byte)
      requires Valid() && x < NUM_COLS
      modifies this, video
      ensures Valid()
      ensures text == SetCell(old(text), old(text).row, old(text).col, Cell(c, ATTRIB)).(col := old(text).col + 1)
    {
      SetCellShown(text, y, x, Cell(c, ATTRIB));
      video[y, x] := Cell(c, ATTRIB);
      text := SetCell(text, text.row, text.col, Cell(c, ATTRIB)).(col := text.col + 1);
      x := x + 1;
    }

    /** What `putc` does for a newline and when the row is full. */
    method BreakLine()
      requires Valid()
      modifies this, video
      ensures Valid() && text == NewRow(old(text))
      decreases if y >= LAST_ROW then 1 else 0, 0
    {
      if y + 1 >= NUM_ROWS {
        Scroll();
      } else {
        y := y + 1;
        x := 0;
        text := NewRow(text);
      }
    }

    /** `backspace`. */
    method Backspace()
      requires Valid()
      modifies this, video
      ensures Valid() && text == Erase(old(text))
    {
      if x == 0 && y > 0 {
        y := y - 1;
        x := NUM_COLS - 1;
      } else if x == 0 && y == 0 {
        return;
      } else {
        x := x - 1;
      }
      video[y, x] := BLANK;
      text := Erase(text);
    }

    /** After a `clear`, whatever is written, the screen shows the last 25 rows of it: lines end at newlines and are broken
        every 80 characters, attribute 7, blank behind their end; the cursor is behind the last character. */
    method ShowText(cs: seq<byte>, ghost rows: seq<Line>)
      requires video.Length0 == NUM_ROWS && video.Length1 == NUM_COLS && rows == Layout(Lines(cs))
      modifies this, video
      ensures Valid()
      ensures var top := if |rows| <= 25 then 0 else |rows| - 25;
              && y == |rows| - 1 - top && x == |rows[|rows| - 1]|
              && forall r, c | 0 <= r < 25 && 0 <= c < 80 ::
                   video[r, c] == if top + r < |rows| && c < |rows[top + r]| then Cell(rows[top + r][c], 7) else Cell(32, 7)
    {
      Clear();
      Write(cs);
      WrittenText(cs);
      ghost var t := text;
      forall r, c | 0 <= r < 25 && 0 <= c < 80
        ensures Shown(t, r, c) == PictureCell(rows, Top(t) + r, c)
      {
        ShownCell(t, rows, r, c);
      }
    }

    /** `puts`, and the loop of `terminal_write`. */
    method Write(cs: seq<byte>)
      requires Valid()
      modifies this, video
      ensures Valid() && text == PutAll(old(text), cs)
    {
      for i := 0 to |cs|
        invariant Valid() && text == PutAll(old(text), cs[..i])
      {
        Putc(cs[i]);
        assert cs[..i + 1][..i] == cs[..i];
      }
      assert cs[..|cs|] == cs;
    }
  }

  ghost function PutAll(t: Text, cs: seq<byte>): (t': Text)
    requires TextInv(t)
    ensures TextInv(t')
  {
    if cs == [] then t else Put(PutAll(t, cs[..|cs| - 1]), cs[|cs| - 1])
  }

  // ---------------------------------------------------------------------
  // What a stream of characters looks like
  // ---------------------------------------------------------------------

  type Line = seq<byte>

  ghost function Lines(cs: seq<byte>): (ls: seq<Line>)
    ensures ls != []
  {
    if cs == [] then [[]]
    else
      var rest := Lines(cs[1..]);
      if IsNewline(cs[0]) then [[]] + rest else [[cs[0]] + rest[0]] + rest[1..]
  }

  /** A line broken every 80 characters; a row that is exactly full is not followed by an empty one. */
  ghost function Wrap(line: Line): (rows: seq<Line>)
    ensures rows != []
  {
    if |line| <= NUM_COLS then [line] else [line[..NUM_COLS]] + Wrap(line[NUM_COLS..])
  }

  ghost function Layout(ls: seq<Line>): (rows: seq<Line>)
    ensures ls != [] ==> rows != []
  {
    if ls == [] then [] else Wrap(ls[0]) + Layout(ls[1..])
  }

  ghost function Pad(line: Line): (row: Row)
    requires |line| <= NUM_COLS
    ensures |row| == NUM_COLS
  {
    seq(NUM_COLS, i requires 0 <= i => if i < |line| then Cell(line[i], ATTRIB) else BLANK)
  }

  /** The text consists of these rows, blank below them, with the cursor behind the last one. */
  ghost predicate Pictures(t: Text, rows: seq<Line>) {
    && TextInv(t) && rows != []
    && (forall k | 0 <= k < |rows| :: |rows[k]| <= NUM_COLS)
    && |t.rows| == (if |rows| < NUM_ROWS then NUM_ROWS else |rows|)
    && t.row == |rows| - 1 && t.col == |rows[|rows| - 1]|
    && (forall k | 0 <= k < |t.rows| :: t.rows[k] == if k < |rows| then Pad(rows[k]) else BlankRow())
  }

  /** What a row of characters looks like at a column. */
  ghost function PictureCell(rows: seq<Line>, r: nat, c: nat): (cell: Cell) {
    if r < |rows| && c < |rows[r]| then Cell(rows[r][c], 7) else Cell(32, 7)
  }

  lemma ShownCell(t: Text, rows: seq<Line>, r: int, c: int)
    requires Pictures(t, rows) && 0 <= r < 25 && 0 <= c < 80
    ensures Shown(t, r, c) == PictureCell(rows, Top(t) + r, c)
  {
    var k := Top(t) + r;
    assert t.rows[k] == if k < |rows| then Pad(rows[k]) else BlankRow();
  }

  // The rows of a stream, said without their definitions

  /** A newline is 10 or 13. */
  ghost predicate NoBreak(cs: seq<byte>) {
    forall i | 0 <= i < |cs| :: cs[i] != 10 && cs[i] != 13
  }

  /** A line ends at the first newline; what follows is lines again. */
  lemma {:induction false} LinesAtBreak(first: Line, c: byte, rest: seq<byte>)
    requires NoBreak(first) && (c == 10 || c == 13)
    ensures Lines(first + [c] + rest) == [first] + Lines(rest)
  {
    var cs := first + [c] + rest;
    if first == [] {
      assert cs[1..] == rest;
    } else {
      assert cs[1..] == first[1..] + [c] + rest;
      LinesAtBreak(first[1..], c, rest);
      assert [cs[0]] + first[1..] == first;
    }
  }

  lemma {:induction false} OneLine(cs: seq<byte>)
    requires NoBreak(cs)
    ensures Lines(cs) == [cs]
  {
    if cs != [] {
      OneLine(cs[1..]);
      assert [cs[0]] + cs[1..] == cs;
    }
  }

  /** A line of more than 80 characters gives a full row and the rows of the rest; any other gives one row. */
  lemma WrapAt80(line: Line)
    ensures |line| <= 80 ==> Wrap(line) == [line]
    ensures |line| > 80 ==> Wrap(line) == [line[..80]] + Wrap(line[80..])
  {
  }

  /** The rows of a sequence of lines are those of each line, in order. */
  lemma {:induction false} LayoutJoin(a: seq<Line>, b: seq<Line>)
    ensures Layout(a + b) == Layout(a) + Layout(b)
    ensures |a| == 1 ==> Layout(a) == Wrap(a[0])
  {
    if a == [] {
      assert a + b == b;
    } else {
      assert (a + b)[1..] == a[1..] + b;
      LayoutJoin(a[1..], b);
      assert Wrap(a[0]) + (Layout(a[1..]) + Layout(b)) == (Wrap(a[0]) + Layout(a[1..])) + Layout(b);
    }
  }

  /** One more character at the end of a stream. */
  ghost function Appended(rows: seq<Line>, c: byte): (rows': seq<Line>)
    requires rows != []
  {
    var last := rows[|rows| - 1];
    if IsNewline(c) then rows + [[]]
    else if |last| >= NUM_COLS then rows + [[c]]
    else rows[|rows| - 1 := last + [c]]
  }

  lemma PutPictures(t: Text, rows: seq<Line>, c: byte)
    requires Pictures(t, rows)
    ensures Pictures(Put(t, c), Appended(rows, c))
  {
    var last := rows[|rows| - 1];
    assert Pad([]) == BlankRow();
    if !IsNewline(c) {
      if |last| >= NUM_COLS {
        assert Pad([c]) == BlankRow()[0 := Cell(c, ATTRIB)];
      } else {
        assert Pad(last + [c]) == Pad(last)[|last| := Cell(c, ATTRIB)];
      }
    }
  }

  /** The lines of a stream with one more character. */
  ghost function Grown(ls: seq<Line>, c: byte): (ls': seq<Line>)
    requires ls != []
    ensures ls' != []
  {
    if IsNewline(c) then ls + [[]] else ls[|ls| - 1 := ls[|ls| - 1] + [c]]
  }

  lemma GrownBehind(first: Line, rest: seq<Line>, c: byte)
    requires rest != []
    ensures Grown([first] + rest, c) == [first] + Grown(rest, c)
  {
  }

  lemma GrownUnder(d: byte, rest: seq<Line>, c: byte)
    requires rest != []
    ensures Grown([[d] + rest[0]] + rest[1..], c) == [[d] + Grown(rest, c)[0]] + Grown(rest, c)[1..]
  {
    assert [d] + (rest[0] + [c]) == ([d] + rest[0]) + [c];
  }

  lemma {:induction false} LinesAppend(cs: seq<byte>, c: byte, ls: seq<Line>)
    requires ls == Lines(cs)
    ensures Lines(cs + [c]) == Grown(ls, c)
  {
    if cs == [] {
      assert cs + [c] == [c] && [c][1..] == [];
      assert [c] + [] == [] + [c];
    } else {
      assert (cs + [c])[1..] == cs[1..] + [c];
      var rest := Lines(cs[1..]);
      LinesAppend(cs[1..], c, rest);
      GrownBehind([], rest, c);
      GrownUnder(cs[0], rest, c);
    }
  }

  lemma {:induction false} WrapAppend(line: Line, c: byte)
    requires !IsNewline(c)
    ensures Wrap(line + [c]) == Appended(Wrap(line), c)
  {
    if |line| > NUM_COLS {
      var first, rest := line[..NUM_COLS], Wrap(line[NUM_COLS..]);
      assert (line + [c])[NUM_COLS..] == line[NUM_COLS..] + [c] && (line + [c])[..NUM_COLS] == first;
      WrapAppend(line[NUM_COLS..], c);
      AppendedBehind([first], rest, c);
    } else if |line| == NUM_COLS {
      assert (line + [c])[NUM_COLS..] == [c] && (line + [c])[..NUM_COLS] == line;
    }
  }

  lemma {:induction false} LayoutAppend(ls: seq<Line>, c: byte, rows: seq<Line>)
    requires ls != [] && rows == Layout(ls)
    ensures Layout(Grown(ls, c)) == Appended(rows, c)
  {
    if |ls| == 1 {
      assert Layout(ls[1..]) == [] && rows == Wrap(ls[0]);
      assert Grown(ls, c)[1..] == if IsNewline(c) then [[]] else [];
      if IsNewline(c) {
        assert Layout([[]]) == [[]];
      } else {
        WrapAppend(ls[0], c);
      }
    } else {
      var rest := Layout(ls[1..]);
      LayoutAppend(ls[1..], c, rest);
      GrownBehind(ls[0], ls[1..], c);
      assert [ls[0]] + ls[1..] == ls;
      AppendedBehind(Wrap(ls[0]), rest, c);
    }
  }

  lemma AppendedBehind(first: seq<Line>, rest: seq<Line>, c: byte)
    requires rest != []
    ensures Appended(first + rest, c) == first + Appended(rest, c)
  {
  }

  /** After `clear`, whatever is written, the screen shows the bottom 25 rows of that stream, broken at newlines and
      every 80 characters, with the cursor behind its last character. */
  lemma {:induction false} WrittenText(cs: seq<byte>)
    ensures Pictures(PutAll(Cleared(), cs), Layout(Lines(cs)))
  {
    if cs == [] {
      assert Pad([]) == BlankRow();
      assert Layout(Lines(cs)) == [[]];
    } else {
      var n := |cs| - 1;
      WrittenText(cs[..n]);
      PutPictures(PutAll(Cleared(), cs[..n]), Layout(Lines(cs[..n])), cs[n]);
      LinesAppend(cs[..n], cs[n], Lines(cs[..n]));
      LayoutAppend(Lines(cs[..n]), cs[n], Layout(Lines(cs[..n])));
      assert cs == cs[..n] + [cs[n]];
    }
  }
}
