/** The line being typed (student-distrib/keyboard.c): the key buffer and what the screen shows of it. */
module LineEditor {
  import opened Bytes
  import opened Console

  // ---------------------------------------------------------------------
  // Positions in the text
  // ---------------------------------------------------------------------

  /** The number of cells before the cursor; column 80 of a row is the same place as column 0 of the next. */
  ghost function Pos(t: Text): (p: nat) {
    NUM_COLS * t.row + t.col
  }

  ghost predicate HasCell(t: Text, p: nat) {
    p / NUM_COLS < |t.rows|
  }

  ghost function CellAt(t: Text, p: nat): (c: Cell)
    requires TextInv(t) && HasCell(t, p)
  {
    t.rows[p / NUM_COLS][p % NUM_COLS]
  }

  /** The two texts agree on the cells before `p`. */
  ghost predicate SameBefore(t: Text, u: Text, p: nat)
    requires TextInv(t) && TextInv(u)
  {
    forall q: nat | q < p && HasCell(t, q) :: HasCell(u, q) && CellAt(u, q) == CellAt(t, q)
  }

  lemma PutAtPos(t: Text, c: byte)
    requires TextInv(t) && c != 10 && c != 13
    ensures Pos(Put(t, c)) == Pos(t) + 1
    ensures HasCell(Put(t, c), Pos(t)) && CellAt(Put(t, c), Pos(t)) == Cell(c, 7)
    ensures SameBefore(t, Put(t, c), Pos(t))
    ensures NUM_COLS * Top(Put(t, c)) <= Pos(t) - 1920 || Top(Put(t, c)) == Top(t)
  {
    var u := if t.col >= NUM_COLS then NewRow(t) else t;
    assert Pos(u) == Pos(t) && Pos(u) / NUM_COLS == u.row && Pos(u) % NUM_COLS == u.col;
    forall q: nat | q < Pos(t) && HasCell(t, q)
      ensures HasCell(Put(t, c), q) && CellAt(Put(t, c), q) == CellAt(t, q)
    {
      assert q / NUM_COLS == u.row ==> q % NUM_COLS < u.col;
    }
  }

  lemma EraseAtPos(t: Text)
    requires TextInv(t) && Pos(t) > NUM_COLS * Top(t)
    ensures Pos(Erase(t)) == Pos(t) - 1 && Top(Erase(t)) == Top(t)
    ensures HasCell(Erase(t), Pos(t) - 1) && CellAt(Erase(t), Pos(t) - 1) == Cell(32, 7)
    ensures SameBefore(t, Erase(t), Pos(t) - 1)
  {
    var u := Erase(t);
    assert Pos(u) == Pos(t) - 1 && Pos(u) / NUM_COLS == u.row && Pos(u) % NUM_COLS == u.col;
    forall q: nat | q < Pos(u) && HasCell(t, q)
      ensures HasCell(u, q) && CellAt(u, q) == CellAt(t, q)
    {
      assert q / NUM_COLS == u.row ==> q % NUM_COLS < u.col;
    }
  }

  // ---------------------------------------------------------------------
  // Editing
  // ---------------------------------------------------------------------

  datatype Key = Type(c: byte) | Bksp

  /** A typed character is dropped when the buffer is full but for its terminator. */
  ghost function Edited(line: seq<byte>, k: Key): (r: seq<byte>)
    ensures |line| < BUFFER_SIZE ==> |r| < BUFFER_SIZE
  {
    match k
    case Type(c) => if |line| + 1 < BUFFER_SIZE then line + [c] else line
    case Bksp => if line == [] then [] else line[..|line| - 1]
  }

  ghost function EditedAll(line: seq<byte>, ks: seq<Key>): (r: seq<byte>)
    ensures |line| < BUFFER_SIZE ==> |r| < BUFFER_SIZE
    decreases |ks|
  {
    if ks == [] then line else EditedAll(Edited(line, ks[0]), ks[1..])
  }

  // What keys do to a line, said without `Edited`

  function Types(cs: seq<byte>): (ks: seq<Key>)
    ensures |ks| == |cs| && forall i | 0 <= i < |cs| :: ks[i] == Type(cs[i])
  {
    seq(|cs|, i requires 0 <= i < |cs| => Type(cs[i]))
  }

  function Backspaces(n: nat): (ks: seq<Key>)
    ensures |ks| == n && forall i | 0 <= i < n :: ks[i] == Bksp
  {
    seq(n, _ => Bksp)
  }

  /** Typing appends the characters, up to 127 in all; the 128th and all further ones are dropped. */
  lemma {:induction false} TypingAppends(line: seq<byte>, cs: seq<byte>)
    requires |line| <= 127
    ensures EditedAll(line, Types(cs)) == (line + cs)[..Min(|line| + |cs|, 127)]
    decreases |cs|
  {
    if cs == [] {
      assert line + cs == line;
    } else {
      var next := Edited(line, Type(cs[0]));
      assert Types(cs)[1..] == Types(cs[1..]);
      TypingAppends(next, cs[1..]);
      if |line| < 127 {
        assert next + cs[1..] == line + cs;
      } else {
        assert (line + cs)[..127] == line == (line + cs[1..])[..127];
      }
    }
  }

  /** Backspaces take characters off the end, and stop at the empty line. */
  lemma {:induction false} BackspacesErase(line: seq<byte>, n: nat)
    ensures EditedAll(line, Backspaces(n)) == if n <= |line| then line[..|line| - n] else []
    decreases n
  {
    if n > 0 {
      assert Backspaces(n)[1..] == Backspaces(n - 1);
      BackspacesErase(Edited(line, Bksp), n - 1);
    }
  }

  lemma {:induction false} EditedJoin(line: seq<byte>, ks: seq<Key>, more: seq<Key>)
    ensures EditedAll(line, ks + more) == EditedAll(EditedAll(line, ks), more)
    decreases |ks|
  {
    if ks == [] {
      assert ks + more == more;
    } else {
      assert (ks + more)[1..] == ks[1..] + more;
      EditedJoin(Edited(line, ks[0]), ks[1..], more);
    }
  }

  /** As many backspaces as characters were accepted give the line back. */
  lemma TypedAndErased(line: seq<byte>, cs: seq<byte>, n: nat)
    requires |line| <= 127 && n == Min(|cs|, 127 - |line|)
    ensures EditedAll(line, Types(cs) + Backspaces(n)) == line
  {
    TypingAppends(line, cs);
    EditedJoin(line, Types(cs), Backspaces(n));
    BackspacesErase(EditedAll(line, Types(cs)), n);
  }

  /** A character and a backspace anywhere among the keys make no difference, unless the line is full there. */
  lemma CorrectionVanishes(line: seq<byte>, ks: seq<Key>, c: byte, more: seq<Key>)
    requires |EditedAll(line, ks)| < 127
    ensures EditedAll(line, ks + [Type(c), Bksp] + more) == EditedAll(line, ks + more)
  {
    var here := EditedAll(line, ks);
    EditedJoin(line, ks + [Type(c), Bksp], more);
    EditedJoin(line, ks, [Type(c), Bksp]);
    EditedJoin(line, ks, more);
    assert Types([c]) + Backspaces(1) == [Type(c), Bksp];
    TypedAndErased(here, [c], 1);
  }

  /** The text shows `line` from position `start` on, with the cursor behind it; what came before is as in `before`. */
  ghost predicate Shows(t: Text, before: Text, start: nat, line: seq<byte>) {
    && TextInv(t) && TextInv(before)
    && Pos(t) == start + |line|
    && NUM_COLS * Top(t) <= start
    && SameBefore(before, t, start)
    && forall i: nat | i < |line| :: HasCell(t, start + i) && CellAt(t, start + i) == Cell(line[i], ATTRIB)
  }

  lemma TypeShows(t: Text, before: Text, start: nat, line: seq<byte>, c: byte)
    requires Shows(t, before, start, line) && |line| < BUFFER_SIZE && !IsNewline(c)
    ensures Shows(Put(t, c), before, start, line + [c])
  {
    PutAtPos(t, c);
    forall i: nat | i < |line + [c]|
      ensures HasCell(Put(t, c), start + i) && CellAt(Put(t, c), start + i) == Cell((line + [c])[i], ATTRIB)
    {
    }
  }

  lemma EraseShows(t: Text, before: Text, start: nat, line: seq<byte>)
    requires Shows(t, before, start, line) && line != []
    ensures Shows(Erase(t), before, start, line[..|line| - 1])
  {
    EraseAtPos(t);
  }

  /** Writing a line shows it. */
  lemma {:induction false} WriteShows(t: Text, line: seq<byte>)
    requires TextInv(t) && |line| < BUFFER_SIZE && forall c <- line :: !IsNewline(c)
    ensures Shows(PutAll(t, line), t, Pos(t), line)
  {
    if line != [] {
      var n := |line| - 1;
      assert line == line[..n] + [line[n]] && line[n] in line;
      WriteShows(t, line[..n]);
      TypeShows(PutAll(t, line[..n]), t, Pos(t), line[..n], line[n]);
    }
  }

  /** The prompt, `391OS> `. */
  const PROMPT: seq<byte> := [51, 57, 49, 79, 83, 62, 32]

  /** What Ctrl+L draws shows the line again exactly when no key without a character, which types a NUL, was pressed. */
  lemma RedrawShowsIff(t: Text, line: seq<byte>, part: seq<byte>, u: Text)
    requires TextInv(t) && |line| < BUFFER_SIZE && forall c <- line :: !IsNewline(c)
    requires part == UpToNul(line) && u == PutAll(t, part)
    ensures Shows(u, t, Pos(t), line) <==> NUL !in line
  {
    assert forall c <- part :: c in line;
    WriteShows(t, part);
    if NUL in line {
      assert part != line;
    } else {
      assert part == line;
    }
  }

  /** The keyboard state of the current terminal. */
  class Editor {
    const screen: Screen
    const buffer: array<byte>
    /** `save_buff` of terminal.c. */
    const saved: array<byte>
    var index: nat
    ghost var start: nat
    ghost var before: Text

    /** `keyboard_init`, with the cursor anywhere on the screen. */
    constructor (screen: Screen)
      requires screen.Valid()
      ensures Valid() && this.screen == screen && fresh(buffer) && fresh(saved) && Line() == []
      ensures start == Pos(screen.text) && before == screen.text
    {
      this.screen := screen;
      buffer := new byte[BUFFER_SIZE](_ => NUL);
      saved := new byte[BUFFER_SIZE](_ => NUL);
      index := 0;
      start, before := Pos(screen.text), screen.text;
    }

    /** The line typed so far. */
    ghost function Line(): (line: seq<byte>)
      requires index <= buffer.Length
      reads this, buffer
    {
      buffer[..index]
    }

    /** At most 127 characters and a tail of NULs ... */
    ghost predicate Held()
      reads this, buffer
    {
      && buffer.Length == saved.Length == BUFFER_SIZE && buffer != saved
      && index < BUFFER_SIZE
      && (forall i | index <= i < BUFFER_SIZE :: buffer[i] == NUL)
      && (forall i | 0 <= i < index :: !IsNewline(buffer[i]))
    }

    /** ... and all of it on the screen. */
    ghost predicate Valid()
      reads this, screen, screen.video, buffer
    {
      Held() && screen.Valid() && Shows(screen.text, before, start, Line())
    }

    /** `process_key` for a key that is a character; Enter has its own handler, so that it is never a newline. */
    method TypeKey(c: byte)
      requires Valid() && !IsNewline(c)
      modifies this`index, screen, screen.video, buffer
      ensures Valid() && Line() == Edited(old(Line()), Type(c))
      ensures Line() == if |old(Line())| < 127 then old(Line()) + [c] else old(Line())
    {
      if index + 1 < BUFFER_SIZE {
        TypeShows(screen.text, before, start, Line(), c);
        screen.Putc(c);
        buffer[index] := c;
        index := index + 1;
        assert Line() == old(Line()) + [c];
      }
    }

    /** `handle_backspace`. */
    method BackspaceKey()
      requires Valid()
      modifies this`index, screen, screen.video, buffer
      ensures Valid() && Line() == Edited(old(Line()), Bksp)
      ensures Line() == if old(Line()) == [] then [] else old(Line())[..|old(Line())| - 1]
    {
      if index - 1 >= 0 {
        EraseShows(screen.text, before, start, Line());
        screen.Backspace();
        index := index - 1;
        buffer[index] := NUL;
        assert Line() == old(Line())[..index];
      }
    }

    /** For every sequence of keys the buffer is their edit-fold and the screen shows it, across wraps and scrolls,
        without touching what was there before; erasing everything takes the cursor back to where it started. */
    method Keys(ks: seq<Key>)
      requires Valid() && forall k <- ks :: k.Type? ==> !IsNewline(k.c)
      modifies this`index, screen, screen.video, buffer
      ensures Valid() && start == old(start) && before == old(before)
      ensures Line() == EditedAll(old(Line()), ks)
      ensures Pos(screen.text) == start + |Line()|
    {
      for n := 0 to |ks|
        invariant Valid() && EditedAll(old(Line()), ks) == EditedAll(Line(), ks[n..])
      {
        assert ks[n] in ks && ks[n..][1..] == ks[n + 1..];
        match ks[n]
        case Type(c) => TypeKey(c);
        case Bksp => BackspaceKey();
      }
    }

    /** Characters typed and erased again leave the line and the cursor where they were, across wraps and scrolls. */
    method TypeAndErase(cs: seq<byte>)
      requires Valid() && forall c <- cs :: !IsNewline(c)
      modifies this`index, screen, screen.video, buffer
      ensures Valid() && start == old(start) && before == old(before)
      ensures Line() == old(Line()) && Pos(screen.text) == old(Pos(screen.text))
    {
      var n := Min(|cs|, 127 - index);
      TypedAndErased(Line(), cs, n);
      assert forall i | 0 <= i < |cs| :: cs[i] in cs;
      Keys(Types(cs) + Backspaces(n));
    }

    /** The loop that writes the buffer up to its first NUL. */
    method WriteBuffer(ghost line: seq<byte>)
      requires buffer.Length == BUFFER_SIZE && |line| < BUFFER_SIZE && line == buffer[..|line|] && buffer[|line|] == NUL
      requires screen.Valid()
      modifies screen, screen.video
      ensures screen.Valid() && screen.text == PutAll(old(screen.text), UpToNul(line))
    {
      var i := 0;
      ghost var shown := UpToNul(line);
      while i < BUFFER_SIZE && buffer[i] != NUL
        invariant i <= |shown| && screen.Valid() && screen.text == PutAll(old(screen.text), shown[..i])
      {
        assert i < |line| && line[i] == buffer[i];
        assert shown[..i + 1][..i] == shown[..i];
        screen.Putc(buffer[i]);
        i := i + 1;
      }
      assert shown[..i] == shown;
    }

    /** The line is written again from the cursor on. */
    method Rewrite(ghost line: seq<byte>)
      requires Held() && screen.Valid() && line == Line()
      modifies this`start, this`before, screen, screen.video
      ensures screen.Valid() && screen.text == PutAll(old(screen.text), UpToNul(line))
      ensures Held() && Line() == line
      ensures Valid() <==> NUL !in line
    {
      assert forall c <- line :: !IsNewline(c);
      start, before := Pos(screen.text), screen.text;
      WriteBuffer(line);
      RedrawShowsIff(before, line, UpToNul(line), screen.text);
    }

    /** Ctrl+L: the screen is cleared, then the prompt and the buffer up to its first NUL are written.
        The editor goes on as before unless a key without a character was typed. */
    method RedrawKey()
      requires Valid()
      modifies this, screen, screen.video
      ensures screen.Valid() && screen.text == PutAll(PutAll(Cleared(), [51, 57, 49, 79, 83, 62, 32]), UpToNul(old(Line())))
      ensures index == old(index) && Line() == old(Line())
      ensures Valid() <==> NUL !in Line()
    {
      screen.Clear();
      screen.Write(PROMPT);
      Rewrite(Line());
    }

    /** `handle_enter`: the line is saved with a tail of NULs, the screen goes on to a new row and the buffer is empty. */
    method EnterKey()
      requires Valid()
      modifies this, screen, screen.video, buffer, saved
      ensures Valid() && Line() == []
      ensures saved[..|old(Line())|] == old(Line())
      ensures forall i | |old(Line())| <= i < BUFFER_SIZE :: saved[i] == NUL
      ensures screen.text == NewRow(old(screen.text)) && start == Pos(screen.text) && before == screen.text
    {
      ghost var line := Line();
      screen.Scroll();
      var r := TerminalRead(index);
      ClearBuffer();
      start, before := Pos(screen.text), screen.text;
    }

    /** `terminal_read`: the first `nbytes` bytes are kept in the cleaned save buffer; it always returns -1. */
    method TerminalRead(nbytes: int) returns (r: int)
      requires buffer.Length == saved.Length == BUFFER_SIZE && buffer != saved
      modifies saved
      ensures r == -1 && forall i | 0 <= i < BUFFER_SIZE :: saved[i] == if i < nbytes then buffer[i] else NUL
    {
      for i := 0 to BUFFER_SIZE
        invariant forall j | 0 <= j < i :: saved[j] == NUL
      {
        saved[i] := NUL;
      }
      var i := 0;
      while i < BUFFER_SIZE && i < nbytes
        invariant 0 <= i <= BUFFER_SIZE && (i <= nbytes || i == 0)
        invariant forall j | 0 <= j < BUFFER_SIZE :: saved[j] == if j < i then buffer[j] else NUL
      {
        saved[i] := buffer[i];
        i := i + 1;
      }
      return -1;
    }

    /** `clear_buffer`. */
    method ClearBuffer()
      requires buffer.Length == BUFFER_SIZE
      modifies this`index, buffer
      ensures index == 0 && forall i | 0 <= i < BUFFER_SIZE :: buffer[i] == NUL
    {
      for i := 0 to BUFFER_SIZE
        invariant forall j | 0 <= j < i :: buffer[j] == NUL
      {
        buffer[i] := NUL;
      }
      index := 0;
    }
  }
}
