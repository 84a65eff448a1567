/** The streaming search of syscalls/ece391grep.c: a 1 KB window over the file, edited in place. */
module Grep {
  import opened Bytes
  import opened Filesystem
  import opened Directory
  import opened Descriptors

  const WINDOW := 1024
  const COLON: byte := 58

  // ---------------------------------------------------------------------
  // What is printed
  // ---------------------------------------------------------------------

  type text = seq<byte>

  ghost predicate OccursAt(s: text, line: text, i: nat) {
    i + |s| <= |line| && line[i..i + |s|] == s
  }

  ghost predicate Contains(s: text, line: text) {
    exists i: nat :: OccursAt(s, line, i)
  }

  /** What the program finds: the pattern is a string of signed chars and the window one of unsigned bytes, so that only
      a pattern whose first character is a 7-bit one can match. */
  ghost predicate Findable(s: text) {
    s != [] && s[0] < 128
  }

  ghost predicate Selected(s: text, line: text) {
    Findable(s) && Contains(s, line)
  }

  /** The index of the first newline, or the length. */
  ghost function LineEnd(t: text): (k: nat)
    ensures k <= |t| && NEWLINE !in t[..k]
    ensures k < |t| ==> t[k] == NEWLINE
  {
    if t == [] || t[0] == NEWLINE then 0 else 1 + LineEnd(t[1..])
  }

  ghost function Lines(t: text): (ls: seq<text>)
    ensures ls != []
    decreases |t|
  {
    var k := LineEnd(t);
    if k < |t| then [t[..k]] + Lines(t[k + 1..]) else [t]
  }

  /** The stretches the program searches one by one: lines, with long ones cut every 1024 bytes. */
  ghost function Pieces(t: text): (ps: seq<text>)
    decreases |t|
  {
    var k := LineEnd(t);
    if k >= WINDOW then [t[..WINDOW]] + Pieces(t[WINDOW..])
    else if k < |t| then [t[..k]] + Pieces(t[k + 1..])
    else [t]
  }

  ghost function Hits(s: text, ts: seq<text>): (hs: seq<text>) {
    if ts == [] then [] else (if Selected(s, ts[0]) then [ts[0]] else []) + Hits(s, ts[1..])
  }

  /** What should be printed: the lines that contain the pattern, once each and in order. */
  ghost function Matching(s: text, ts: seq<text>): (ms: seq<text>) {
    if ts == [] then [] else (if Contains(s, ts[0]) then [ts[0]] else []) + Matching(s, ts[1..])
  }

  /** The bytes written for the printed lines: name, colon, line, newline. */
  ghost function Render(fname: text, ts: seq<text>): (out: text) {
    if ts == [] then [] else Render(fname, ts[..|ts| - 1]) + fname + [COLON] + ts[|ts| - 1] + [NEWLINE]
  }

  // ---------------------------------------------------------------------
  // Lines and pieces
  // ---------------------------------------------------------------------

  lemma {:induction false} LineEndIs(t: text, k: nat)
    requires k <= |t| && NEWLINE !in t[..k] && (k < |t| ==> t[k] == NEWLINE)
    ensures LineEnd(t) == k
  {
    if k > 0 {
      assert t[0] in t[..k];
      assert t[1..][..k - 1] == t[..k][1..];
      LineEndIs(t[1..], k - 1);
    }
  }

  lemma {:induction false} HitsJoin(s: text, a: seq<text>, b: seq<text>)
    ensures Hits(s, a + b) == Hits(s, a) + Hits(s, b)
  {
    if a == [] {
      assert a + b == b;
    } else {
      assert (a + b)[1..] == a[1..] + b;
      HitsJoin(s, a[1..], b);
    }
  }

  lemma EmptyIsNoHit(s: text)
    ensures !Selected(s, []) && Hits(s, [[]]) == [] && Pieces([]) == [[]] && Hits(s, Pieces([])) == []
  {
  }

  /** One line cut every 1024 bytes. */
  ghost function Chop(line: text): (ps: seq<text>) {
    if |line| < WINDOW then [line] else [line[..WINDOW]] + Chop(line[WINDOW..])
  }

  /** Cutting 1024 bytes off a long first line leaves the same text with the rest of that line in front. */
  lemma CutLongLine(t: text, k: nat, u: text)
    requires k == LineEnd(t) >= WINDOW && u == t[WINDOW..]
    ensures LineEnd(u) == k - WINDOW && u[..k - WINDOW] == t[..k][WINDOW..] && t[..k][..WINDOW] == t[..WINDOW]
    ensures k < |t| ==> u[k - WINDOW + 1..] == t[k + 1..]
    ensures Pieces(t) == [t[..WINDOW]] + Pieces(u)
    ensures Chop(t[..k]) == [t[..WINDOW]] + Chop(u[..k - WINDOW])
  {
    assert u[..k - WINDOW] == t[..k][WINDOW..];
    LineEndIs(u, k - WINDOW);
    assert t[..k][..WINDOW] == t[..WINDOW];
  }

  /** The pieces of a text are its first line, chopped, and the pieces of the rest. */
  lemma {:induction false} PiecesChop(t: text, k: nat, after: seq<text>)
    requires k == LineEnd(t) && after == if k < |t| then Pieces(t[k + 1..]) else []
    ensures Pieces(t) == Chop(t[..k]) + after
    decreases |t|
  {
    if k >= WINDOW {
      CutLongLine(t, k, t[WINDOW..]);
      PiecesChop(t[WINDOW..], k - WINDOW, after);
    } else if k == |t| {
      assert t[..k] == t;
    }
  }

  lemma PartSelected(s: text, line: text, a: nat, b: nat)
    requires a <= b <= |line| && Selected(s, line[a..b])
    ensures Selected(s, line)
  {
    var i: nat :| OccursAt(s, line[a..b], i);
    var part := line[a..b];
    var here := part[i..i + |s|];
    var found := line[a + i..a + i + |s|];
    forall j | 0 <= j < |s|
      ensures found[j] == here[j]
    {
      assert part[i + j] == line[a + (i + j)];
    }
    assert found == here == s;
    assert OccursAt(s, line, a + i);
  }

  /** A line that holds no occurrence has no piece that does; one of at most 1024 bytes is its own only hit. */
  lemma {:induction false} ChopHits(s: text, line: text)
    requires |line| <= WINDOW || !Selected(s, line)
    ensures Hits(s, Chop(line)) == Hits(s, [line])
  {
    if |line| >= WINDOW {
      EmptyIsNoHit(s);
      var rest := line[WINDOW..];
      if |line| == WINDOW {
        assert rest == [] && line[..WINDOW] == line;
        assert Chop(rest) == [[]] && Chop(line) == [line] + [[]];
        HitsJoin(s, [line], [[]]);
      } else {
        if Selected(s, line[..WINDOW]) {
          PartSelected(s, line, 0, WINDOW);
        }
        if Selected(s, line[WINDOW..|line|]) {
          PartSelected(s, line, WINDOW, |line|);
        }
        assert line[WINDOW..|line|] == rest;
        ChopHits(s, rest);
        HitsJoin(s, [line[..WINDOW]], Chop(rest));
      }
    }
  }

  ghost predicate ShortOrUnselected(s: text, ls: seq<text>) {
    forall i | 0 <= i < |ls| :: |ls[i]| <= WINDOW || !Selected(s, ls[i])
  }

  lemma {:induction false} ShortLinesPrintWhole(s: text, t: text)
    requires ShortOrUnselected(s, Lines(t))
    ensures Hits(s, Pieces(t)) == Hits(s, Lines(t))
    decreases |t|
  {
    var k := LineEnd(t);
    PiecesChop(t, k, if k < |t| then Pieces(t[k + 1..]) else []);
    assert Lines(t)[0] == t[..k];
    ChopHits(s, t[..k]);
    if k < |t| {
      assert Lines(t[k + 1..]) == Lines(t)[1..];
      assert ShortOrUnselected(s, Lines(t[k + 1..]));
      ShortLinesPrintWhole(s, t[k + 1..]);
      HitsJoin(s, Chop(t[..k]), Pieces(t[k + 1..]));
      HitsJoin(s, [t[..k]], Lines(t[k + 1..]));
    } else {
      assert t[..k] == t;
      assert Chop(t[..k]) + [] == Chop(t[..k]);
    }
  }

  lemma {:induction false} PiecesAreShort(t: text)
    ensures forall p <- Pieces(t) :: |p| <= WINDOW
    decreases |t|
  {
    var k := LineEnd(t);
    if k >= WINDOW {
      PiecesAreShort(t[WINDOW..]);
    } else if k < |t| {
      PiecesAreShort(t[k + 1..]);
    }
  }

  lemma {:induction false} HitsAreSelected(s: text, ts: seq<text>)
    ensures forall t :: t in Hits(s, ts) <==> t in ts && Selected(s, t)
  {
    if ts != [] {
      HitsAreSelected(s, ts[1..]);
    }
  }

  lemma {:induction false} MatchingContain(s: text, ts: seq<text>)
    ensures forall t :: t in Matching(s, ts) <==> t in ts && Contains(s, t)
  {
    if ts != [] {
      MatchingContain(s, ts[1..]);
    }
  }

  /** A pattern that can be found is found wherever it occurs; any other is found nowhere. */
  lemma {:induction false} HitsAreMatching(s: text, ts: seq<text>)
    ensures Hits(s, ts) == if Findable(s) then Matching(s, ts) else []
  {
    if ts != [] {
      HitsAreMatching(s, ts[1..]);
    }
  }

  /** Every line that contains the pattern has at most 1024 bytes, and the pattern is one that can be found. */
  ghost predicate PrintedRight(s: text, ls: seq<text>) {
    forall i | 0 <= i < |ls| :: Contains(s, ls[i]) ==> |ls[i]| <= 1024 && Findable(s)
  }

  /** The hits among the pieces are exactly the lines that contain the pattern, once each and in file order, if and only if
      every such line has at most 1024 bytes and, when there is one, the pattern starts with a 7-bit character. */
  lemma PiecesMatchIff(s: text, t: text)
    ensures Hits(s, Pieces(t)) == Matching(s, Lines(t)) <==> PrintedRight(s, Lines(t))
  {
    var ls := Lines(t);
    MatchingContain(s, ls);
    if i :| 0 <= i < |ls| && Contains(s, ls[i]) && !(|ls[i]| <= WINDOW && Findable(s)) {
      HitsAreSelected(s, Pieces(t));
      PiecesAreShort(t);
      assert ls[i] in Matching(s, ls) && ls[i] !in Hits(s, Pieces(t));
    } else if Findable(s) {
      assert ShortOrUnselected(s, ls);
      ShortLinesPrintWhole(s, t);
      HitsAreMatching(s, ls);
    } else {
      HitsAreMatching(s, Pieces(t));
      NoneMatch(s, ls);
    }
  }

  lemma {:induction false} NoneMatch(s: text, ts: seq<text>)
    requires forall i | 0 <= i < |ts| :: !Contains(s, ts[i])
    ensures Matching(s, ts) == []
  {
    if ts != [] {
      NoneMatch(s, ts[1..]);
    }
  }

  /** It fails otherwise: the one-byte line 200 contains the pattern 200 and is not printed. */
  lemma EightBitPatternMissed()
    ensures Lines([200]) == [[200]] && Contains([200], [200])
    ensures Matching([200], Lines([200])) == [[200]] && Hits([200], Pieces([200])) == []
  {
    var t: text := [200];
    LineEndIs(t, 1);
    assert OccursAt(t, t, 0);
    assert Matching(t, [t]) == [t] + Matching(t, [t][1..]);
    HitsAreMatching(t, Pieces(t));
  }

  // ---------------------------------------------------------------------
  // A newline behind the window
  // ---------------------------------------------------------------------

  /** The byte behind the window is not initialised. As long as it is a newline, a full window counts as ending in a
      finished line; it is overwritten by the first full window that does not end in a newline itself. */
  ghost function EdgePieces(t: text): (ps: seq<text>)
    decreases |t|
  {
    if |t| < WINDOW then Pieces(t)
    else
      Pieces(t[..WINDOW]) +
      if t[WINDOW - 1] == NEWLINE then EdgePieces(t[WINDOW..]) else Pieces(t[WINDOW..])
  }

  ghost function PiecesFor(edge: bool, t: text): (ps: seq<text>) {
    if edge then EdgePieces(t) else Pieces(t)
  }

  /** Where such a newline takes effect: behind the first full window that does not end in a newline itself. */
  ghost function EdgeCut(t: text): (c: nat)
    ensures c <= |t|
    decreases |t|
  {
    if |t| < WINDOW then |t|
    else if t[WINDOW - 1] == NEWLINE then WINDOW + EdgeCut(t[WINDOW..])
    else WINDOW
  }

  /** The two parts of the line around a cut. */
  ghost function LeftPart(x: text): (a: text) {
    Lines(x)[|Lines(x)| - 1]
  }

  ghost function RightPart(y: text): (b: text) {
    Lines(y)[0]
  }

  /** A cut between `x` and `y` does no harm: it lies at the end of a line, or the line does not contain the pattern. */
  ghost predicate CutHarmless(s: text, x: text, y: text) {
    LeftPart(x) == [] || RightPart(y) == [] || !Contains(s, LeftPart(x) + RightPart(y))
  }

  ghost predicate Harmless(s: text, t: text) {
    CutHarmless(s, t[..EdgeCut(t)], t[EdgeCut(t)..])
  }

  lemma {:induction false} MatchingJoin(s: text, a: seq<text>, b: seq<text>)
    ensures Matching(s, a + b) == Matching(s, a) + Matching(s, b)
  {
    if a == [] {
      assert a + b == b;
    } else {
      assert (a + b)[1..] == a[1..] + b;
      MatchingJoin(s, a[1..], b);
    }
  }

  lemma MatchingOne(s: text, line: text)
    ensures Matching(s, [line]) == if Contains(s, line) then [line] else []
  {
    assert [line][1..] == [];
  }

  lemma ContainsPart(s: text, a: text, b: text)
    requires Contains(s, a) || Contains(s, b)
    ensures Contains(s, a + b)
  {
    var line := a + b;
    if i: nat :| OccursAt(s, a, i) {
      assert line[i..i + |s|] == a[i..i + |s|];
      assert OccursAt(s, line, i);
    } else {
      var i: nat :| OccursAt(s, b, i);
      assert line[|a| + i..|a| + i + |s|] == b[i..i + |s|];
      assert OccursAt(s, line, |a| + i);
    }
  }

  /** The lines of a text in two parts: those of the parts, with the line around the cut in one piece. */
  ghost function Glued(lx: seq<text>, ly: seq<text>): (ls: seq<text>)
    requires lx != [] && ly != []
  {
    lx[..|lx| - 1] + [lx[|lx| - 1] + ly[0]] + ly[1..]
  }

  lemma LinesAt(t: text, first: text, rest: text)
    requires t == first + [NEWLINE] + rest && NEWLINE !in first
    ensures Lines(t) == [first] + Lines(rest)
  {
    var k := |first|;
    assert t[..k] == first && t[k + 1..] == rest;
    LineEndIs(t, k);
  }

  lemma OneLine(t: text)
    requires NEWLINE !in t
    ensures Lines(t) == [t]
  {
    assert t[..|t|] == t;
    LineEndIs(t, |t|);
  }

  /** The first line of a text with a newline. */
  lemma FirstLine(t: text) returns (first: text, rest: text)
    requires NEWLINE in t
    ensures t == first + [NEWLINE] + rest && NEWLINE !in first
  {
    var k := LineEnd(t);
    first := t[..k];
    assert t[..|t|] == t;
    rest := t[k + 1..];
  }

  lemma JoinedBehind(x: text, y: text, first: text, sep: text, rest: text, u: text)
    requires x == first + sep + rest && u == rest + y
    ensures x + y == first + sep + u
  {
  }

  lemma JoinedBefore(x: text, y: text, first: text, rest: text)
    requires y == first + [NEWLINE] + rest
    ensures x + y == (x + first) + [NEWLINE] + rest
  {
  }

  lemma {:induction false} GlueLines(x: text, y: text, t: text, lx: seq<text>, ly: seq<text>)
    requires lx == Lines(x) && ly == Lines(y) && t == x + y
    ensures Lines(t) == Glued(lx, ly)
    decreases |x|
  {
    if NEWLINE in x {
      var first, rest := FirstLine(x);
      var u, lr := rest + y, Lines(rest);
      JoinedBehind(x, y, first, [NEWLINE], rest, u);
      GlueLines(rest, y, u, lr, ly);
      LinesAt(x, first, rest);
      LinesAt(t, first, u);
      GluedBehind(first, lr, ly);
    } else {
      OneLine(x);
      GlueUnbroken(x, y, t, ly);
    }
  }

  /** A text that starts with a part of a line. */
  lemma GlueUnbroken(x: text, y: text, t: text, ly: seq<text>)
    requires NEWLINE !in x && ly == Lines(y) && t == x + y
    ensures Lines(t) == Glued([x], ly)
  {
    if NEWLINE in y {
      var first, rest := FirstLine(y);
      LinesAt(y, first, rest);
      JoinedBefore(x, y, first, rest);
      LinesAt(t, x + first, rest);
    } else {
      OneLine(y);
      OneLine(t);
    }
  }

  lemma GluedBehind(first: text, lx: seq<text>, ly: seq<text>)
    requires lx != [] && ly != []
    ensures Glued([first] + lx, ly) == [first] + Glued(lx, ly)
  {
    assert ([first] + lx)[..|lx|] == [first] + lx[..|lx| - 1];
  }

  /** What should be printed of a text in two parts, and of the parts. */
  lemma MatchingGlued(s: text, lx: seq<text>, ly: seq<text>, a: text, b: text, left: seq<text>, right: seq<text>)
    requires lx != [] && ly != [] && a == lx[|lx| - 1] && b == ly[0]
    requires left == Matching(s, lx[..|lx| - 1]) && right == Matching(s, ly[1..])
    ensures Matching(s, Glued(lx, ly)) == left + Matching(s, [a + b]) + right
    ensures Matching(s, lx) + Matching(s, ly) == left + (Matching(s, [a]) + Matching(s, [b])) + right
  {
    var front, back := lx[..|lx| - 1], ly[1..];
    MatchingJoin(s, front + [a + b], back);
    MatchingJoin(s, front, [a + b]);
    assert lx == front + [a];
    MatchingJoin(s, front, [a]);
    assert ly == [b] + back;
    MatchingJoin(s, [b], back);
    Regrouped(left, Matching(s, [a]), Matching(s, [b]), right);
  }

  lemma Regrouped(left: seq<text>, u: seq<text>, v: seq<text>, right: seq<text>)
    ensures (left + u) + (v + right) == left + (u + v) + right
  {
  }

  lemma Cancel(left: seq<text>, u: seq<text>, v: seq<text>, right: seq<text>)
    ensures left + u + right == left + v + right <==> u == v
  {
    var p, q := left + u + right, left + v + right;
    if p == q {
      assert u == p[|left|..|p| - |right|];
      assert v == q[|left|..|q| - |right|];
    }
  }

  /** Around the cut, the parts give what the whole line owes exactly when the cut is harmless. */
  lemma PartsOwe(s: text, a: text, b: text)
    requires s != []
    ensures Matching(s, [a]) + Matching(s, [b]) == Matching(s, [a + b]) <==> a == [] || b == [] || !Contains(s, a + b)
  {
    MatchingOne(s, a);
    MatchingOne(s, b);
    MatchingOne(s, a + b);
    if Contains(s, a) || Contains(s, b) {
      ContainsPart(s, a, b);
    }
    if a == [] {
      assert a + b == b;
    } else if b == [] {
      assert a + b == a;
    } else {
      assert |a| < |a + b| && |b| < |a + b|;
      if Contains(s, a + b) {
        assert Matching(s, [a]) + Matching(s, [b]) != [a + b] by {
          assert forall ms | ms == Matching(s, [a]) + Matching(s, [b]) && |ms| == 1 :: ms[0] == a || ms[0] == b;
        }
      }
    }
  }

  /** A line that is printed right is so in parts. */
  lemma PartsRight(s: text, lx: seq<text>, ly: seq<text>)
    requires lx != [] && ly != [] && PrintedRight(s, Glued(lx, ly))
    ensures PrintedRight(s, lx) && PrintedRight(s, ly)
  {
    var n, ls := |lx| - 1, Glued(lx, ly);
    assert ls[n] == lx[n] + ly[0];
    forall i | 0 <= i < |lx| && Contains(s, lx[i])
      ensures |lx[i]| <= WINDOW && Findable(s)
    {
      if i < n {
        assert ls[i] == lx[i];
      } else {
        ContainsPart(s, lx[n], ly[0]);
      }
    }
    forall i | 0 <= i < |ly| && Contains(s, ly[i])
      ensures |ly[i]| <= WINDOW && Findable(s)
    {
      if i > 0 {
        assert ls[n + i] == ly[i];
      } else {
        ContainsPart(s, lx[n], ly[0]);
      }
    }
  }

  /** Printing a text in two parts prints the lines that contain the pattern if and only if printing it whole does and the
      cut is harmless. */
  lemma SplitMatchIff(s: text, x: text, y: text, t: text, ls: seq<text>)
    requires t == x + y && ls == Lines(t)
    ensures Hits(s, Pieces(x)) + Hits(s, Pieces(y)) == Matching(s, ls) <==> PrintedRight(s, ls) && CutHarmless(s, x, y)
  {
    GlueLines(x, y, t, Lines(x), Lines(y));
    if PrintedRight(s, ls) {
      SplitWhenRight(s, x, y, ls);
    } else {
      var i :| 0 <= i < |ls| && Contains(s, ls[i]) && !(|ls[i]| <= WINDOW && Findable(s));
      MatchingContain(s, ls);
      HitsAreSelected(s, Pieces(x));
      HitsAreSelected(s, Pieces(y));
      PiecesAreShort(x);
      PiecesAreShort(y);
      assert ls[i] in Matching(s, ls) && ls[i] !in Hits(s, Pieces(x)) + Hits(s, Pieces(y));
    }
  }

  lemma SplitWhenRight(s: text, x: text, y: text, ls: seq<text>)
    requires ls == Glued(Lines(x), Lines(y)) && PrintedRight(s, ls)
    ensures Hits(s, Pieces(x)) + Hits(s, Pieces(y)) == Matching(s, ls) <==> CutHarmless(s, x, y)
  {
    var lx, ly, a, b := Lines(x), Lines(y), LeftPart(x), RightPart(y);
    PartsRight(s, lx, ly);
    PiecesMatchIff(s, x);
    PiecesMatchIff(s, y);
    var left, right := Matching(s, lx[..|lx| - 1]), Matching(s, ly[1..]);
    MatchingGlued(s, lx, ly, a, b, left, right);
    Cancel(left, Matching(s, [a]) + Matching(s, [b]), Matching(s, [a + b]), right);
    EmptyOccurs(s, lx, ly);
    PartsOwe(s, a, b);
  }

  /** The empty pattern is in every line and never found. */
  lemma EmptyOccurs(s: text, lx: seq<text>, ly: seq<text>)
    requires lx != [] && ly != [] && PrintedRight(s, Glued(lx, ly))
    ensures s != []
  {
    if s == [] {
      var line := Glued(lx, ly)[0];
      assert OccursAt(s, line, 0);
    }
  }

  /** A piece and what follows it: a newline that ends it, or nothing when it fills the window. */
  ghost predicate Separates(first: text, sep: text) {
    NEWLINE !in first && ((|first| == WINDOW && sep == []) || (|first| < WINDOW && sep == [NEWLINE]))
  }

  lemma PieceAt(s: text, t: text, first: text, sep: text, rest: text)
    requires Separates(first, sep) && t == first + sep + rest
    ensures Hits(s, Pieces(t)) == Hits(s, [first]) + Hits(s, Pieces(rest))
  {
    if sep == [] {
      assert t == first + rest;
      WholePiece(s, first, rest);
    } else {
      assert t[..|first|] == first && t[|first| + 1..] == rest;
      FirstPiece(s, t, |first|);
    }
  }

  /** The first piece of a text that ends in a newline. */
  lemma FirstOf(x: text) returns (first: text, sep: text, rest: text)
    requires x != [] && x[|x| - 1] == NEWLINE
    ensures Separates(first, sep) && x == first + sep + rest && |rest| < |x|
    ensures rest != [] ==> rest[|rest| - 1] == NEWLINE
  {
    var line, after := FirstLine(x);
    if |line| >= WINDOW {
      first, sep, rest := line[..WINDOW], [], line[WINDOW..] + [NEWLINE] + after;
    } else {
      first, sep, rest := line, [NEWLINE], after;
    }
  }

  /** ... and of what it is the front of. */
  lemma FirstOfBoth(s: text, x: text, y: text, t: text) returns (hits: seq<text>, rest: text, u: text)
    requires x != [] && x[|x| - 1] == NEWLINE && t == x + y
    ensures Hits(s, Pieces(x)) == hits + Hits(s, Pieces(rest)) && Hits(s, Pieces(t)) == hits + Hits(s, Pieces(u))
    ensures |rest| < |x| && (rest != [] ==> rest[|rest| - 1] == NEWLINE) && u == rest + y
  {
    var first, sep;
    first, sep, rest := FirstOf(x);
    u := rest + y;
    JoinedBehind(x, y, first, sep, rest, u);
    hits := Hits(s, [first]);
    PieceAt(s, x, first, sep, rest);
    PieceAt(s, t, first, sep, u);
  }

  /** Behind a newline the pieces start afresh. */
  lemma {:induction false} PiecesAtNewline(s: text, x: text, y: text, t: text)
    requires x != [] && x[|x| - 1] == NEWLINE && t == x + y
    ensures Hits(s, Pieces(t)) == Hits(s, Pieces(x)) + Hits(s, Pieces(y))
    decreases |x|
  {
    var hits, rest, u := FirstOfBoth(s, x, y, t);
    if rest == [] {
      EmptyIsNoHit(s);
      assert u == y;
    } else {
      PiecesAtNewline(s, rest, y, u);
    }
    Collect(hits, Hits(s, Pieces(rest)), Hits(s, Pieces(y)), Hits(s, Pieces(u)), Hits(s, Pieces(x)), Hits(s, Pieces(t)));
  }

  lemma Collect(hits: seq<text>, hr: seq<text>, hy: seq<text>, hu: seq<text>, hx: seq<text>, ht: seq<text>)
    requires hx == hits + hr && ht == hits + hu && hu == hr + hy
    ensures ht == hx + hy
  {
  }

  lemma Assoc(a: seq<text>, b: seq<text>, c: seq<text>)
    ensures a + (b + c) == (a + b) + c
  {
  }

  /** With a newline behind the window, the text is searched in two parts. */
  lemma {:induction false} EdgeHits(s: text, t: text, c: nat)
    requires c == EdgeCut(t)
    ensures Hits(s, EdgePieces(t)) == Hits(s, Pieces(t[..c])) + Hits(s, Pieces(t[c..]))
    decreases |t|
  {
    if |t| < WINDOW {
      EmptyIsNoHit(s);
      assert t[..c] == t && t[c..] == [];
    } else if t[WINDOW - 1] == NEWLINE {
      EdgeHits(s, t[WINDOW..], c - WINDOW);
      WindowBefore(s, t, c, t[..WINDOW], t[WINDOW..], c - WINDOW);
    } else {
      HitsJoin(s, Pieces(t[..WINDOW]), Pieces(t[WINDOW..]));
    }
  }

  lemma WindowBefore(s: text, t: text, c: nat, w: text, rest: text, d: nat)
    requires |w| == WINDOW && w[WINDOW - 1] == NEWLINE && t == w + rest && c == WINDOW + d <= |t|
    requires Hits(s, EdgePieces(rest)) == Hits(s, Pieces(rest[..d])) + Hits(s, Pieces(rest[d..]))
    ensures Hits(s, Pieces(w) + EdgePieces(rest)) == Hits(s, Pieces(t[..c])) + Hits(s, Pieces(t[c..]))
  {
    var x, y := rest[..d], rest[d..];
    assert t[..c] == w + x && t[c..] == y;
    HitsJoin(s, Pieces(w), EdgePieces(rest));
    PiecesAtNewline(s, w, x, t[..c]);
    Assoc(Hits(s, Pieces(w)), Hits(s, Pieces(x)), Hits(s, Pieces(y)));
  }

  /** The program prints exactly the lines that contain the pattern, once each and in file order, if and only if every such
      line has at most 1024 bytes, the pattern starts with a 7-bit character when there is one, and a newline behind the
      window, if there is one, cuts none of them. */
  lemma PrintsMatchingLinesIff(s: text, edge: bool, t: text)
    ensures Hits(s, PiecesFor(edge, t)) == Matching(s, Lines(t)) <==> PrintedRight(s, Lines(t)) && (edge ==> Harmless(s, t))
  {
    if edge {
      EdgeMatchIff(s, t, EdgeCut(t), Lines(t), t[..EdgeCut(t)], t[EdgeCut(t)..]);
    } else {
      PiecesMatchIff(s, t);
    }
  }

  /** In particular: a pattern whose first character is below 128 is found in every line of at most 1024 bytes. */
  lemma ShortLinesAllPrinted(s: text, t: text)
    requires s != [] && s[0] < 128 && forall i | 0 <= i < |Lines(t)| :: |Lines(t)[i]| <= 1024
    ensures Hits(s, PiecesFor(false, t)) == Matching(s, Lines(t))
  {
    PrintsMatchingLinesIff(s, false, t);
  }

  lemma EdgeMatchIff(s: text, t: text, c: nat, ls: seq<text>, x: text, y: text)
    requires c == EdgeCut(t) && ls == Lines(t) && x == t[..c] && y == t[c..]
    ensures Hits(s, EdgePieces(t)) == Matching(s, ls) <==> PrintedRight(s, ls) && CutHarmless(s, x, y)
  {
    EdgeHits(s, t, c);
    CutAgain(t, c, x, y);
    SplitMatchIff(s, x, y, t, ls);
  }

  lemma CutAgain(t: text, c: nat, x: text, y: text)
    requires c <= |t| && x == t[..c] && y == t[c..]
    ensures t == x + y
  {
  }

  /** A newline and one more line. */
  lemma OneBreak(s: text, line: text, t: text)
    requires NEWLINE !in line && |line| <= WINDOW && t == [NEWLINE] + line
    ensures Hits(s, Pieces(t)) == Hits(s, [line])
  {
    assert t[..0] == [] && t[1..] == line && line + [] == line;
    FirstPiece(s, t, 0);
    WholePiece(s, line, []);
    EmptyIsNoHit(s);
  }

  /** Such a newline does matter: a line that crosses the window's edge is searched in two parts. */
  lemma EdgeNewlineMisses(a: text, line: text, t: text)
    requires |a| == WINDOW - 2 && NEWLINE !in a && 98 !in a && line == a + [98, 98] && t == [NEWLINE] + line
    ensures Hits([98, 98], Pieces(t)) == [line] && Hits([98, 98], EdgePieces(t)) == []
  {
    var s: text := [98, 98];
    assert line[|a|..|a| + |s|] == s;
    assert OccursAt(s, line, |a|);
    OneBreak(s, line, t);
    assert t[..WINDOW] == [NEWLINE] + (a + [98]) && t[WINDOW..] == [98];
    NoHitInParts(a, s, a + [98], [98], t[..WINDOW]);
  }

  lemma NoHitInParts(a: text, s: text, cut: text, rest: text, w: text)
    requires |a| == WINDOW - 2 && NEWLINE !in a && 98 !in a && s == [98, 98]
    requires cut == a + [98] && rest == [98] && w == [NEWLINE] + cut
    ensures Hits(s, Pieces(w) + Pieces(rest)) == []
  {
    OneBreak(s, cut, w);
    NotInCut(a, s, cut);
    assert rest + [] == rest;
    EmptyIsNoHit(s);
    WholePiece(s, rest, []);
    HitsJoin(s, Pieces(w), Pieces(rest));
  }

  lemma NotInCut(a: text, s: text, cut: text)
    requires 98 !in a && s == [98, 98] && cut == a + [98]
    ensures !Contains(s, cut)
  {
    forall i: nat
      ensures !OccursAt(s, cut, i)
    {
      if i + |s| <= |cut| {
        assert cut[i..i + |s|][0] == cut[i] == a[i] && a[i] in a;
      }
    }
  }

  /** ... or a part of the line is printed where the whole line is owed. */
  lemma EdgeNewlinePrintsPart(s: text, line: text, t: text)
    requires |line| == WINDOW && NEWLINE !in line && t == [NEWLINE] + line
    requires Selected(s, line[..WINDOW - 1]) && !Contains(s, line[WINDOW - 1..])
    ensures Hits(s, Pieces(t)) == [line] && Hits(s, EdgePieces(t)) == [line[..WINDOW - 1]]
  {
    var cut, rest := line[..WINDOW - 1], line[WINDOW - 1..];
    assert line == cut + rest;
    ContainsPart(s, cut, rest);
    OneBreak(s, line, t);
    assert t[..WINDOW] == [NEWLINE] + cut && t[WINDOW..] == rest;
    OneBreak(s, cut, t[..WINDOW]);
    assert t[WINDOW - 1] == line[WINDOW - 2];
    assert rest + [] == rest;
    EmptyIsNoHit(s);
    WholePiece(s, rest, []);
    HitsJoin(s, Pieces(t[..WINDOW]), Pieces(rest));
  }

  // ---------------------------------------------------------------------
  // The program
  // ---------------------------------------------------------------------

  /** A C string occupies `data[at..end]` and ends there. */
  ghost predicate StringIn(data: array<byte>, at: nat, end: nat)
    reads data
  {
    at <= end < data.Length && data[end] == NUL && forall j | at <= j < end :: data[j] != NUL
  }

  /** From index `lo` on, the buffer still holds the window `w` as it was read. */
  ghost predicate Unread(data: array<byte>, w: text, lo: nat)
    reads data
  {
    |w| <= data.Length && forall j | lo <= j < |w| :: data[j] == w[j]
  }

  /** `ece391_strncmp (data + at, s, |s|)` against a pattern with no NUL. */
  method PatternAt(data: array<byte>, at: nat, s: text, ghost end: nat) returns (r: int)
    requires StringIn(data, at, end) && NUL !in s
    ensures r == 0 <==> OccursAt(s, data[at..end], 0)
  {
    if |s| == 0 {
      return 0;
    }
    var i := 0;
    while data[at + i] == CharAt(s, i)
      invariant i < |s| && at + i <= end
      invariant data[at..at + i] == s[..i]
      decreases |s| - i
    {
      assert data[at + i] == s[i] != NUL && at + i < end;
      if data[at + i] == NUL || i + 1 == |s| {
        assert data[at..end][..i + 1] == data[at..at + i + 1] == s;
        return 0;
      }
      i := i + 1;
    }
    assert i < end - at ==> data[at..end][i] != s[i];
    return data[at + i] - CharAt(s, i);
  }

  /** `ece391_fdputs (1, data + at)`: the bytes up to the terminator. */
  method Puts(data: array<byte>, at: nat, ghost end: nat) returns (out: text)
    requires StringIn(data, at, end)
    ensures out == data[at..end]
  {
    out := [];
    while data[at + |out|] != NUL
      invariant at + |out| <= end && out == data[at..at + |out|]
      decreases end - |out|
    {
      out := out + [data[at + |out|]];
    }
  }

  /** The overlapping `ece391_strcpy (data, data + from)`. */
  method CopyDown(data: array<byte>, from: nat, ghost end: nat)
    requires 0 < from && StringIn(data, from, end)
    modifies data
    ensures data[..end - from] == old(data[from..end]) && data[end - from] == NUL
    ensures forall j | 0 <= j < end - from :: data[j] == old(data[from + j])
    ensures forall j | end - from < j < data.Length :: data[j] == old(data[j])
  {
    var i := 0;
    ghost var start := data[..];
    while data[from + i] != NUL
      invariant from + i <= end
      invariant forall j | 0 <= j < i :: data[j] == start[from + j]
      invariant forall j | i <= j < data.Length :: data[j] == start[j]
      decreases end - i
    {
      data[i] := data[from + i];
      i := i + 1;
    }
    data[i] := NUL;
  }

  lemma RenderOne(fname: text, line: text)
    ensures Render(fname, [line]) == fname + [58] + line + [10]
  {
    assert [line][..0] == [];
    assert Render(fname, []) + fname == fname;
  }

  lemma OccursLater(s: text, line: text, i: nat)
    requires i <= |line|
    ensures OccursAt(s, line[i..], 0) <==> OccursAt(s, line, i)
  {
    if i + |s| <= |line| {
      assert line[i..][0..0 + |s|] == line[i..i + |s|];
    }
  }

  /** The search of one line, `data[lineStart..lineEnd]`: it is printed once if the pattern occurs anywhere in it. */
  method SearchLine(s: text, fname: text, data: array<byte>, lineStart: nat, lineEnd: nat) returns (out: text)
    requires StringIn(data, lineStart, lineEnd) && NUL !in s
    ensures out == Render(fname, Hits(s, [data[lineStart..lineEnd]]))
  {
    ghost var line := data[lineStart..lineEnd];
    var check := lineStart;
    while check < lineEnd
      invariant lineStart <= check <= lineEnd
      invariant s != [] && s[0] < 128 ==> forall i: nat | i < check - lineStart :: !OccursAt(s, line, i)
    {
      ghost var i := check - lineStart;
      assert data[check..lineEnd] == line[i..];
      OccursLater(s, line, i);
      assert data[check] == line[i] != NUL;
      if Signed(CharAt(s, 0)) == data[check] {
        var cmp := PatternAt(data, check, s, lineEnd);
        assert cmp == 0 <==> OccursAt(s, line, i);
        if cmp == 0 {
          var shown := Puts(data, lineStart, lineEnd);
          assert Selected(s, line);
          RenderOne(fname, line);
          assert Hits(s, [line]) == [line];
          return fname + [COLON] + shown + [NEWLINE];
        }
      }
      check := check + 1;
    }
    assert !Selected(s, line);
    return [];
  }

  /** How the pieces of `t` begin, when its first line ends at `k` inside the window. */
  lemma FirstPiece(s: text, t: text, k: nat)
    requires k < WINDOW && k < |t| && NEWLINE !in t[..k] && t[k] == NEWLINE
    ensures Hits(s, Pieces(t)) == Hits(s, [t[..k]]) + Hits(s, Pieces(t[k + 1..]))
  {
    LineEndIs(t, k);
    HitsJoin(s, [t[..k]], Pieces(t[k + 1..]));
  }

  /** ... and when no newline is near: a full window, or the end of the file, is a piece of its own. */
  lemma WholePiece(s: text, w: text, tail: text)
    requires NEWLINE !in w && |w| <= WINDOW && (|w| < WINDOW ==> tail == [])
    ensures Hits(s, Pieces(w + tail)) == Hits(s, [w]) + Hits(s, Pieces(tail))
  {
    var t := w + tail;
    if |w| == WINDOW {
      assert t[..WINDOW] == w && t[WINDOW..] == tail;
      assert forall i | 0 <= i < WINDOW :: t[i] == w[i];
      HitsJoin(s, [w], Pieces(tail));
    } else {
      assert t == w && t[..|w|] == w;
      LineEndIs(t, |w|);
      EmptyIsNoHit(s);
    }
  }

  /** One turn of the inner loop: the first `k` bytes of the window are a piece, `rest` is what follows it. */
  lemma PieceDone(s: text, window: text, k: nat, rest: text, tail: text)
    requires k <= |window| <= WINDOW && NEWLINE !in window[..k]
    requires if k < |window| then window[k] == NEWLINE && rest == window[k + 1..]
             else rest == [] && (|window| < WINDOW ==> tail == [])
    ensures Hits(s, Pieces(window + tail)) == Hits(s, [window[..k]]) + Hits(s, Pieces(rest + tail))
  {
    if k < |window| {
      var t := window + tail;
      assert t[..k] == window[..k] && t[k + 1..] == rest + tail;
      FirstPiece(s, t, k);
    } else {
      assert window[..k] == window && rest + tail == tail;
      WholePiece(s, window, tail);
    }
  }

  lemma {:induction false} RenderJoin(fname: text, a: seq<text>, b: seq<text>)
    ensures Render(fname, a + b) == Render(fname, a) + Render(fname, b)
  {
    if b == [] {
      assert a + b == a;
    } else {
      var n := |b| - 1;
      assert (a + b)[..|a| + n] == a + b[..n];
      RenderJoin(fname, a, b[..n]);
      assert Render(fname, a) + (Render(fname, b[..n]) + fname + [COLON] + b[n] + [NEWLINE])
          == (Render(fname, a) + Render(fname, b[..n])) + fname + [COLON] + b[n] + [NEWLINE];
    }
  }

  /** The hits still to come of a window in front of the unread tail. */
  ghost predicate ToCome(s: text, window: text, tail: text, hits: seq<text>) {
    hits == Hits(s, Pieces(window + tail))
  }

  /** What is left of window `w` after the piece `w[from..to]`. */
  ghost function After(w: text, to: nat): (rest: text) {
    if to < |w| then w[to + 1..] else []
  }

  lemma TurnDone(s: text, w: text, from: nat, to: nat, tail: text,
                 goal: seq<text>, printed: seq<text>, todo: seq<text>, printed': seq<text>) returns (todo': seq<text>)
    requires from <= to <= |w| <= WINDOW && NEWLINE !in w[from..to]
    requires if to < |w| then w[to] == NEWLINE else |w| - from < WINDOW ==> tail == []
    requires ToCome(s, w[from..], tail, todo) && goal == printed + todo && printed' == printed + Hits(s, [w[from..to]])
    ensures ToCome(s, After(w, to), tail, todo') && goal == printed' + todo'
  {
    var window, k, line := w[from..], to - from, w[from..to];
    assert window[..k] == line && (to < |w| ==> window[k + 1..] == w[to + 1..]);
    PieceDone(s, window, k, After(w, to), tail);
    todo' := Hits(s, Pieces(After(w, to) + tail));
    Regroup(goal, printed, todo, Hits(s, [line]), todo', printed');
  }

  lemma Regroup(goal: seq<text>, printed: seq<text>, todo: seq<text>, now: seq<text>, todo': seq<text>, printed': seq<text>)
    requires goal == printed + todo && todo == now + todo' && printed' == printed + now
    ensures goal == printed' + todo'
  {
  }

  /** The innermost scan: the end of the line that starts at `lineStart`. */
  method FindLineEnd(data: array<byte>, lineStart: nat, last: nat, ghost w: text) returns (lineEnd: nat)
    requires lineStart <= last == |w| < data.Length && Unread(data, w, lineStart)
    ensures lineStart <= lineEnd <= last && NEWLINE !in w[lineStart..lineEnd]
    ensures lineEnd < last ==> w[lineEnd] == NEWLINE
    ensures lineStart < lineEnd ==> w[lineEnd - 1] != NEWLINE
  {
    lineEnd := lineStart;
    while lineEnd < last && data[lineEnd] != NEWLINE
      invariant lineStart <= lineEnd <= last && NEWLINE !in w[lineStart..lineEnd]
      invariant lineStart < lineEnd ==> w[lineEnd - 1] != NEWLINE
    {
      lineEnd := lineEnd + 1;
    }
  }

  /** The unfinished line `data[lineStart..last]` moves to the bottom of the buffer. */
  method MoveDown(data: array<byte>, lineStart: nat, last: nat, ghost w: text)
    requires 0 < lineStart <= last == |w| < data.Length && Unread(data, w, lineStart)
    requires NUL !in w && NEWLINE !in w[lineStart..last]
    modifies data
    ensures data[..last - lineStart] == w[lineStart..]
    ensures NUL !in data[..last - lineStart] && NEWLINE !in data[..last - lineStart]
    ensures data[last] == NUL && forall j | last < j < data.Length :: data[j] == old(data[j])
  {
    data[last] := NUL;
    CopyDown(data, lineStart, last);
    assert w[lineStart..last] == w[lineStart..];
  }

  /** A finished line is terminated in place and searched. */
  method FinishLine(s: text, fname: text, data: array<byte>, lineStart: nat, lineEnd: nat, out: text,
                    ghost w: text, ghost printed: seq<text>, ghost printed': seq<text>)
    returns (out': text)
    requires lineStart <= lineEnd < data.Length && lineEnd <= |w| && Unread(data, w, lineStart) && NUL !in w && NUL !in s
    requires out == Render(fname, printed) && printed' == printed + Hits(s, [w[lineStart..lineEnd]])
    modifies data
    ensures data[lineEnd] == NUL && forall j | 0 <= j < data.Length && j != lineEnd :: data[j] == old(data[j])
    ensures out' == Render(fname, printed')
  {
    data[lineEnd] := NUL;
    assert data[lineStart..lineEnd] == w[lineStart..lineEnd];
    var shown := SearchLine(s, fname, data, lineStart, lineEnd);
    RenderJoin(fname, printed, Hits(s, [w[lineStart..lineEnd]]));
    out' := out + shown;
  }

  /** One turn of the inner loop: the piece `w[lineStart..lineEnd]` is finished, searched and accounted for. */
  method Turn(s: text, fname: text, data: array<byte>, lineStart: nat, lineEnd: nat, out: text,
              ghost w: text, ghost tail: text, ghost goal: seq<text>, ghost printed: seq<text>, ghost todo: seq<text>)
    returns (out': text, ghost printed': seq<text>, ghost todo': seq<text>)
    requires lineStart <= lineEnd <= |w| <= WINDOW < data.Length && Unread(data, w, lineStart) && NUL !in w && NUL !in s
    requires NEWLINE !in w[lineStart..lineEnd]
    requires if lineEnd < |w| then w[lineEnd] == NEWLINE else |w| - lineStart < WINDOW ==> tail == []
    requires out == Render(fname, printed) && goal == printed + todo && ToCome(s, w[lineStart..], tail, todo)
    modifies data
    ensures data[lineEnd] == NUL && forall j | 0 <= j < data.Length && j != lineEnd :: data[j] == old(data[j])
    ensures out' == Render(fname, printed') && goal == printed' + todo' && ToCome(s, After(w, lineEnd), tail, todo')
  {
    printed' := printed + Hits(s, [w[lineStart..lineEnd]]);
    todo' := TurnDone(s, w, lineStart, lineEnd, tail, goal, printed, todo, printed');
    out' := FinishLine(s, fname, data, lineStart, lineEnd, out, w, printed, printed');
  }

  /** What is left of the byte behind the window after a scan of `w`. */
  ghost predicate EdgeAfter(edge: bool, w: text) {
    edge && !(|w| == WINDOW && w[WINDOW - 1] != NEWLINE)
  }

  /** The byte behind the window is a newline. */
  ghost predicate Edge(data: array<byte>)
    requires data.Length == WINDOW + 1
    reads data
  {
    data[WINDOW] == NEWLINE
  }

  /** One line of the window: it is finished and searched, or it is unfinished and stays as it is. */
  method ScanLine(s: text, fname: text, data: array<byte>, lineStart: nat, last: nat, cnt: nat, out: text,
                  ghost w: text, ghost tail: text, ghost goal: seq<text>, ghost printed: seq<text>, ghost todo: seq<text>)
    returns (lineEnd: nat, unfinished: bool, out': text, ghost printed': seq<text>, ghost todo': seq<text>)
    requires data.Length == WINDOW + 1 && lineStart <= last == |w| <= WINDOW && NUL !in s && NUL !in w
    requires Unread(data, w, lineStart) && (lineStart == last ==> lineStart == 0)
    requires cnt == 0 || last < WINDOW || Edge(data) ==> tail == []
    requires out == Render(fname, printed) && goal == printed + todo && ToCome(s, w[lineStart..], tail, todo)
    modifies data
    ensures lineStart <= lineEnd <= last && (lineEnd < last ==> w[lineEnd] == NEWLINE)
    ensures lineStart < lineEnd ==> w[lineEnd - 1] != NEWLINE
    ensures unfinished ==> cnt != 0 && lineStart != 0 && lineEnd == last && NEWLINE !in w[lineStart..last]
    ensures unfinished ==> data[last] != NEWLINE && forall j | 0 <= j < data.Length :: data[j] == old(data[j])
    ensures !unfinished ==> data[lineEnd] == NUL && forall j | 0 <= j < data.Length && j != lineEnd :: data[j] == old(data[j])
    ensures !unfinished ==>
              out' == Render(fname, printed') && goal == printed' + todo' && ToCome(s, After(w, lineEnd), tail, todo')
  {
    lineEnd := FindLineEnd(data, lineStart, last, w);
    unfinished := data[lineEnd] != NEWLINE && cnt != 0 && lineStart != 0;
    out', printed', todo' := out, printed, todo;
    if !unfinished {
      out', printed', todo' := Turn(s, fname, data, lineStart, lineEnd, out, w, tail, goal, printed, todo);
    }
  }

  /** The inner loop, on a window `w` in front of the unread `tail` of the file, up to its exits: it prints the hits of the
      finished pieces, and stops at an unfinished line or at the end of the window. */
  method ScanLines(s: text, fname: text, data: array<byte>, last: nat, cnt: nat,
                   ghost w: text, ghost tail: text, ghost goal: seq<text>)
    returns (lineStart: nat, unfinished: bool, out: text, ghost printed: seq<text>, ghost todo: seq<text>)
    requires data.Length == WINDOW + 1 && last == |w| <= WINDOW && NUL !in s && data[..last] == w && NUL !in w
    requires cnt == 0 || last < WINDOW || Edge(data) ==> tail == []
    requires ToCome(s, w, tail, goal)
    modifies data
    ensures unfinished ==>
              && 0 < lineStart <= last && cnt != 0 && Unread(data, w, lineStart) && NEWLINE !in w[lineStart..last]
              && ToCome(s, w[lineStart..], tail, todo)
              && old(data[last]) != NEWLINE && (last == WINDOW ==> w[WINDOW - 1] != NEWLINE)
              && data[WINDOW] == old(data[WINDOW])
    ensures !unfinished ==> ToCome(s, [], tail, todo)
    ensures !unfinished ==> data[WINDOW] == if last == WINDOW && w[WINDOW - 1] != NEWLINE then NUL else old(data[WINDOW])
    ensures out == Render(fname, printed) && goal == printed + todo
  {
    lineStart, out, printed, todo := 0, [], [], goal;
    assert w[0..] == w;
    while true
      invariant lineStart <= last && (lineStart == last ==> lineStart == 0)
      invariant Unread(data, w, lineStart)
      invariant forall j | last <= j < data.Length :: data[j] == old(data[j])
      invariant out == Render(fname, printed)
      invariant goal == printed + todo && ToCome(s, w[lineStart..], tail, todo)
      decreases last - lineStart
    {
      var lineEnd, stop, out'; ghost var printed', todo';
      lineEnd, stop, out', printed', todo' :=
        ScanLine(s, fname, data, lineStart, last, cnt, out, w, tail, goal, printed, todo);
      if stop {
        return lineStart, true, out, printed, todo;
      }
      out, printed, todo := out', printed', todo';
      lineStart := lineEnd + 1;
      if lineStart >= last {
        return lineStart, false, out, printed, todo;
      }
      assert After(w, lineEnd) == w[lineStart..];
    }
  }

  /** ... and with its exits: an unfinished line goes to the bottom of the buffer. */
  method ScanWindow(s: text, fname: text, data: array<byte>, last0: nat, cnt: nat,
                    ghost w: text, ghost tail: text, ghost todo0: seq<text>)
    returns (last: nat, out: text, ghost printed: seq<text>, ghost todo: seq<text>)
    requires data.Length == WINDOW + 1 && last0 == |w| <= WINDOW && NUL !in s && data[..last0] == w && NUL !in w
    requires cnt == 0 || last0 < WINDOW || Edge(data) ==> tail == []
    requires ToCome(s, w, tail, todo0)
    modifies data
    ensures last < WINDOW && NUL !in data[..last] && NEWLINE !in data[..last]
    ensures cnt == 0 || (old(Edge(data)) && last0 == WINDOW) ==> last == 0
    ensures Edge(data) <==> EdgeAfter(old(Edge(data)), w)
    ensures out == Render(fname, printed)
    ensures todo0 == printed + todo && ToCome(s, data[..last], tail, todo)
  {
    var lineStart, unfinished;
    lineStart, unfinished, out, printed, todo := ScanLines(s, fname, data, last0, cnt, w, tail, todo0);
    if unfinished {
      MoveDown(data, lineStart, last0, w);
      last := last0 - lineStart;
    } else {
      last := 0;
      assert data[..last] == [];
    }
  }

  /** What a name leads to: the clock, a regular file, or an entry whose inode does not exist. */
  datatype Source = Clock | Regular(file: File) | Dangling

  /** What can be read of it, and whether that is all: a clock read returns 0 at once, a missing inode -1. */
  ghost predicate SourceLaidOut(f: Source) {
    f.Regular? ==> FileLaidOut(f.file)
  }

  ghost function PartOf(f: Source): (part: text)
    requires SourceLaidOut(f)
  {
    if f.Regular? then SoundPart(f.file) else []
  }

  ghost predicate Whole(f: Source)
    requires SourceLaidOut(f)
  {
    match f
    case Clock => true
    case Regular(file) => Readable(file)
    case Dangling => false
  }

  ghost function SourceOf(img: Image, e: Dentry): (f: Source)
    requires LaidOut(img)
    ensures SourceLaidOut(f)
  {
    if e.fileType == 0 then Clock
    else if e.inode < |img.inodes| then Regular(FileOf(img, e.inode))
    else Dangling
  }

  /** Descriptor `fd` of the caller is open on it. */
  ghost predicate Holds(d: Descriptors, fd: int, f: Source)
    requires d.Valid()
    reads d
  {
    && 0 <= fd < MAX_OPEN_FILES && SourceLaidOut(f)
    && match f
       case Clock => d.tables[d.current][fd].jump == Some(Rtc)
       case Regular(file) => d.Opens(fd, file)
       case Dangling =>
         d.tables[d.current][fd].jump == Some(Files) && !(0 <= d.tables[d.current][fd].inode < |d.img.inodes|)
  }

  /** ... and stands at `pos` of what can be read, `part`. */
  ghost predicate Reading(d: Descriptors, fd: int, f: Source, part: text, whole: bool, pos: nat)
    reads d
  {
    && d.Valid() && Holds(d, fd, f) && part == PartOf(f) && whole == Whole(f)
    && pos <= |part| && (f.Regular? ==> pos == d.tables[d.current][fd].position)
  }

  /** A `read` into the window, behind the unfinished line, of whatever the descriptor is open on. */
  method ReadMore(d: Descriptors, fd: int, ghost f: Source, ghost part: text, ghost whole: bool,
                  data: array<byte>, last: nat, ghost pos: nat)
    returns (cnt: int, ghost next: nat)
    requires Reading(d, fd, f, part, whole, pos) && data.Length == WINDOW + 1 && last < WINDOW
    modifies d`tables, data
    ensures d.Valid() && d.current == old(d.current) && Holds(d, fd, f) && d.Others(fd) == old(d.Others(fd))
    ensures cnt == -1 <==> pos == |part| && !whole
    ensures cnt != -1 ==>
              && Reading(d, fd, f, part, whole, next)
              && pos <= pos + cnt == next == Min(pos + (WINDOW - last), |part|)
              && data[..] == Spliced(old(data[..]), last, part[pos..next])
    ensures cnt == -1 ==> data[..] == old(data[..])
  {
    if d.tables[d.current][fd].jump == Some(Rtc) {
      NothingSpliced(data[..], last);
      cnt := Read(d, fd, data, last, WINDOW - last, 0);
      next := 0;
      assert part[0..0] == [];
    } else if 0 <= d.tables[d.current][fd].inode < |d.img.inodes| {
      SoundWhenReadable(f.file);
      cnt := ReadNext(d, fd, f.file, part, data, last, WINDOW - last);
      next := d.tables[d.current][fd].position;
    } else {
      cnt := Read(d, fd, data, last, WINDOW - last, 0);
      next := 0;
    }
  }

  /** A read appends to the unfinished line and leaves everything beyond as it was, or fails where nothing more can be read. */
  method FillWindow(d: Descriptors, fd: int, ghost f: Source, ghost part: text, ghost whole: bool,
                    data: array<byte>, last: nat, ghost pos: nat)
    returns (cnt: int, ghost next: nat)
    requires Reading(d, fd, f, part, whole, pos) && data.Length == WINDOW + 1 && last < WINDOW
    modifies d`tables, data
    ensures d.Valid() && d.current == old(d.current) && Holds(d, fd, f) && d.Others(fd) == old(d.Others(fd))
    ensures cnt == -1 <==> pos == |part| && !whole
    ensures cnt != -1 ==>
              && Reading(d, fd, f, part, whole, next)
              && pos <= pos + cnt == next == Min(pos + (WINDOW - last), |part|)
              && data[..last + cnt] == old(data[..last]) + part[pos..next]
              && Edge(data) == old(Edge(data))
    ensures cnt == -1 ==> Edge(data) == old(Edge(data))
  {
    ghost var before := data[..];
    cnt, next := ReadMore(d, fd, f, part, whole, data, last, pos);
    if cnt != -1 {
      ghost var after := Spliced(before, last, part[pos..next]);
      assert data[..] == after;
      assert data[WINDOW] == after[WINDOW] == before[WINDOW];
    }
  }

  /** The hits still to come of an unfinished line in front of the unread rest. */
  ghost predicate Pending(s: text, edge: bool, start: text, rest: text, todo: seq<text>) {
    (edge ==> start == [] || rest == []) && todo == Hits(s, PiecesFor(edge, start + rest))
  }

  /** What a scan of the window `w` is to print, and what remains after it. */
  lemma WindowFilled(s: text, edge: bool, start: text, part: text, pos: nat, next: nat, w: text, todo: seq<text>)
    returns (tail: text, now: seq<text>, later: seq<text>)
    requires pos <= next <= |part| && w == start + part[pos..next] && |start| < WINDOW
    requires next == Min(pos + (WINDOW - |start|), |part|) && Pending(s, edge, start, part[pos..], todo)
    ensures todo == now + later && ToCome(s, w, tail, now)
    ensures |w| < WINDOW || edge || next == pos ==> tail == []
    ensures if edge && |w| == WINDOW then later == Hits(s, PiecesFor(EdgeAfter(edge, w), part[next..]))
            else later == [] && tail == part[next..]
  {
    var rest := part[next..];
    assert w + rest == start + part[pos..];
    if edge && |w| == WINDOW {
      tail, now, later := [], Hits(s, Pieces(w)), Hits(s, PiecesFor(EdgeAfter(edge, w), rest));
      FullWindow(s, w, rest, w + rest);
      assert w + tail == w;
    } else {
      tail, now, later := rest, todo, [];
    }
  }

  lemma FullWindow(s: text, w: text, rest: text, t: text)
    requires |w| == WINDOW && t == w + rest
    ensures Hits(s, EdgePieces(t)) == Hits(s, Pieces(w)) + Hits(s, PiecesFor(EdgeAfter(true, w), rest))
  {
    assert t[..WINDOW] == w && t[WINDOW..] == rest;
    HitsJoin(s, Pieces(w), PiecesFor(EdgeAfter(true, w), rest));
  }

  /** After the scan. */
  lemma StillPending(s: text, edge: bool, w: text, tail: text, start: text, rest: text, todo: seq<text>, later: seq<text>)
    returns (todo': seq<text>)
    requires ToCome(s, start, tail, todo) && |start| < WINDOW && |w| <= WINDOW && (|w| < WINDOW ==> rest == [])
    requires if edge && |w| == WINDOW then start == [] && tail == [] && later == Hits(s, PiecesFor(EdgeAfter(edge, w), rest))
             else later == [] && tail == rest
    ensures todo' == todo + later && Pending(s, EdgeAfter(edge, w), start, rest, todo')
  {
    todo' := todo + later;
    EmptyIsNoHit(s);
    assert start + [] == start && [] + rest == rest;
  }

  lemma OutputGrows(fname: text, out0: text, printed0: seq<text>, shown: text, now: seq<text>)
    requires out0 == Render(fname, printed0) && shown == Render(fname, now)
    ensures out0 + shown == Render(fname, printed0 + now)
  {
    RenderJoin(fname, printed0, now);
  }

  /** One round of the read loop, after a read that has not failed: it appends to the output the hits that are now decided. */
  method Round(ghost part: text, s: text, fname: text, data: array<byte>, last0: nat, cnt: nat, out0: text,
               ghost start: text, ghost edge: bool, ghost pos: nat, ghost next: nat,
               ghost printed0: seq<text>, ghost todo0: seq<text>)
    returns (last: nat, out: text, ghost printed: seq<text>, ghost todo: seq<text>)
    requires data.Length == WINDOW + 1 && |start| == last0 < WINDOW && NUL !in start && NUL !in part && NUL !in s
    requires pos <= pos + cnt == next == Min(pos + (WINDOW - last0), |part|)
    requires data[..last0 + cnt] == start + part[pos..next] && edge == Edge(data)
    requires out0 == Render(fname, printed0) && Pending(s, edge, start, part[pos..], todo0)
    modifies data
    ensures last < WINDOW && NUL !in data[..last] && NEWLINE !in data[..last]
    ensures out == Render(fname, printed) && Pending(s, Edge(data), data[..last], part[next..], todo)
    ensures printed0 + todo0 == printed + todo
    ensures cnt == 0 ==> last == 0
    ensures Edge(data) ==> edge
  {
    ghost var w := start + part[pos..next];
    ghost var tail, now, later := WindowFilled(s, edge, start, part, pos, next, w, todo0);
    var shown; ghost var done, rest;
    last, shown, done, rest := ScanWindow(s, fname, data, last0 + cnt, cnt, w, tail, now);
    todo := StillPending(s, edge, w, tail, data[..last], part[next..], rest, later);
    out, printed := out0 + shown, printed0 + done;
    OutputGrows(fname, out0, printed0, shown, done);
    Reassociate(printed0, todo0, now, later, done, rest);
  }

  lemma Reassociate(printed: seq<text>, todo: seq<text>, now: seq<text>, later: seq<text>, done: seq<text>, rest: seq<text>)
    requires todo == now + later && now == done + rest
    ensures printed + todo == (printed + done) + (rest + later)
  {
  }

  const READ_FAILED: text := [102, 105, 108, 101, 32, 114, 101, 97, 100, 32, 102, 97, 105, 108, 101, 100, 10]

  lemma NothingPending(s: text, edge: bool, start: text, todo: seq<text>)
    requires Pending(s, edge, start, [], todo) && |start| < WINDOW && NEWLINE !in start
    ensures todo == Hits(s, [start]) && (start == [] ==> todo == [])
  {
    assert start + [] == start && start[..|start|] == start;
    LineEndIs(start, |start|);
    EmptyIsNoHit(s);
  }

  /** A read and the round after it. */
  method ReadRound(d: Descriptors, fd: int, ghost f: Source, ghost part: text, ghost whole: bool,
                   s: text, fname: text, data: array<byte>, last0: nat, out0: text, ghost pos: nat, ghost printed0: seq<text>, ghost todo0: seq<text>)
    returns (cnt: int, last: nat, out: text, ghost printed: seq<text>, ghost todo: seq<text>, ghost next: nat)
    requires Reading(d, fd, f, part, whole, pos) && NUL !in part && NUL !in s && data.Length == WINDOW + 1
    requires last0 < WINDOW && NUL !in data[..last0] && NEWLINE !in data[..last0]
    requires out0 == Render(fname, printed0) && Pending(s, Edge(data), data[..last0], part[pos..], todo0)
    modifies d`tables, data
    ensures d.Valid() && d.current == old(d.current) && Holds(d, fd, f) && d.Others(fd) == old(d.Others(fd))
    ensures cnt == -1 <==> pos == |part| && !whole
    ensures cnt == -1 ==> todo0 == Hits(s, [old(data[..last0])])
    ensures Edge(data) ==> old(Edge(data))
    ensures cnt != -1 ==>
              && Reading(d, fd, f, part, whole, next) && pos <= pos + cnt == next <= |part|
              && last < WINDOW && NUL !in data[..last] && NEWLINE !in data[..last]
              && out == Render(fname, printed) && Pending(s, Edge(data), data[..last], part[next..], todo)
              && printed0 + todo0 == printed + todo
              && (cnt == 0 ==> last == 0 && next == |part| && whole && todo == [])
  {
    ghost var start, edge := data[..last0], Edge(data);
    cnt, next := FillWindow(d, fd, f, part, whole, data, last0, pos);
    last, out, printed, todo := last0, out0, printed0, todo0;
    if cnt == -1 {
      assert part[pos..] == [];
      NothingPending(s, edge, start, todo0);
    } else {
      last, out, printed, todo := Round(part, s, fname, data, last0, cnt, out0, start, edge, pos, next, printed0, todo0);
      if cnt == 0 {
        assert part[next..] == [] && data[..last] == [];
        NothingPending(s, Edge(data), [], todo);
      }
    }
  }

  /** The read loop: what is printed and what is left of all hits, `goal`, when it ends. */
  method Rounds(d: Descriptors, fd: int, ghost f: Source, ghost part: text, ghost whole: bool,
                s: text, fname: text, data: array<byte>, ghost goal: seq<text>)
    returns (r: int, out: text, ghost printed: seq<text>, ghost todo: seq<text>, ghost unfinished: text)
    requires NUL !in part && NUL !in s && data.Length == WINDOW + 1
    requires Reading(d, fd, f, part, whole, 0) && Pending(s, Edge(data), [], part, goal)
    modifies d`tables, data
    ensures d.Valid() && d.current == old(d.current) && Holds(d, fd, f) && d.Others(fd) == old(d.Others(fd))
    ensures (r == 0 || r == -1) && (r == 0 <==> whole)
    ensures out == Render(fname, printed) && goal == printed + todo
    ensures if r == 0 then todo == [] else todo == Hits(s, [unfinished])
    ensures NEWLINE !in unfinished && |unfinished| < WINDOW
    ensures Edge(data) ==> old(Edge(data))
  {
    var last: nat, cnt := 0, 1;
    ghost var pos: nat := 0;
    out, printed, todo, unfinished := [], [], goal, [];
    assert data[..0] == [] && part[0..] == part;
    while cnt != 0
      invariant Reading(d, fd, f, part, whole, pos) && d.current == old(d.current) && d.Others(fd) == old(d.Others(fd))
      invariant last < WINDOW && NUL !in data[..last] && NEWLINE !in data[..last]
      invariant out == Render(fname, printed) && Pending(s, Edge(data), data[..last], part[pos..], todo)
      invariant goal == printed + todo && (Edge(data) ==> old(Edge(data)))
      invariant 0 <= cnt && (cnt == 0 ==> whole && todo == [])
      decreases |part| - pos, cnt
    {
      unfinished := data[..last];
      var out', last'; ghost var printed', todo', next;
      cnt, last', out', printed', todo', next := ReadRound(d, fd, f, part, whole, s, fname, data, last, out, pos, printed, todo);
      if cnt == -1 {
        return -1, out, printed, todo, unfinished;
      }
      last, out, printed, todo, pos := last', out', printed', todo', next;
    }
    return 0, out, printed, todo, [];
  }

  /** It ends with everything read and all hits printed, or with an error at the first refused block, having printed all
      hits before it but possibly the one of an unfinished line. */
  method SearchFile(d: Descriptors, fd: int, ghost f: Source, ghost part: text, ghost whole: bool,
                    s: text, fname: text, data: array<byte>)
    returns (r: int, out: text, ghost printed: seq<text>, ghost unfinished: text)
    requires Reading(d, fd, f, part, whole, 0)
    requires NUL !in part && NUL !in s && data.Length == WINDOW + 1
    modifies d`tables, data
    ensures d.Valid() && d.current == old(d.current) && Holds(d, fd, f) && d.Others(fd) == old(d.Others(fd))
    ensures (r == 0 || r == -1) && (r == 0 <==> whole)
    ensures out == Render(fname, printed) + if r == 0 then [] else READ_FAILED
    ensures Hits(s, PiecesFor(old(Edge(data)), part)) == printed + Hits(s, [unfinished])
    ensures NEWLINE !in unfinished && |unfinished| < WINDOW && (r == 0 ==> unfinished == [])
    ensures Edge(data) ==> old(Edge(data))
  {
    ghost var goal := Hits(s, PiecesFor(Edge(data), part));
    assert [] + part == part;
    var shown; ghost var todo;
    r, shown, printed, todo, unfinished := Rounds(d, fd, f, part, whole, s, fname, data, goal);
    if r == 0 {
      EmptyIsNoHit(s);
      out, unfinished := shown, [];
    } else {
      out := shown + READ_FAILED;
    }
  }

  const OPEN_FAILED: text := [102, 105, 108, 101, 32, 111, 112, 101, 110, 32, 102, 97, 105, 108, 101, 100, 10]

  /** The name, if it resolves, is not that of a directory and leads to no NUL bytes. */
  ghost predicate Searchable(img: Image, fname: text)
    requires LaidOut(img)
  {
    forall k: nat | FirstNamed(img, Queried(fname, NAME_SIZE), k) ::
      img.entries[k].fileType != 1 && NUL !in PartOf(SourceOf(img, img.entries[k]))
  }

  lemma BlankAgain(tables: seq<Table>, pid: nat, i: nat, fd: Fd)
    requires pid < |tables| && i < |tables[pid]| && tables[pid][i] == EMPTY
    ensures var after := tables[pid := tables[pid][i := fd]];
            after[pid := after[pid][i := EMPTY]] == tables
  {
    assert tables[pid][i := fd][i := EMPTY] == tables[pid];
  }

  /** `open` finds the name and a free descriptor. */
  ghost predicate Opening(d: Descriptors, fname: text)
    requires d.Valid()
    reads d
  {
    var query := Queried(fname, NAME_SIZE);
    query != [] && (exists j: nat :: FirstNamed(d.img, query, j)) && !Full(d.tables[d.current])
  }

  /** What `do_one_file` writes of the part of a file that can be read, `part`, if it is opened: the hits, all of them and
      nothing else if that is the whole file. These are the lines that contain the pattern exactly under the conditions of
      `PrintsMatchingLinesIff`. */
  ghost predicate Output(s: text, edge: bool, part: text, fname: text, r: int, out: text, printed: seq<text>, unfinished: text) {
    && out == Render(fname, printed) + (if r == 0 then [] else READ_FAILED)
    && Hits(s, PiecesFor(edge, part)) == printed + Hits(s, [unfinished])
    && NEWLINE !in unfinished && |unfinished| < WINDOW
    && (r == 0 ==> (printed == Matching(s, Lines(part)) <==> PrintedRight(s, Lines(part)) && (edge ==> Harmless(s, part))))
  }

  lemma AllPrinted(s: text, edge: bool, part: text, printed: seq<text>)
    requires Hits(s, PiecesFor(edge, part)) == printed + Hits(s, [[]])
    ensures printed == Matching(s, Lines(part)) <==> PrintedRight(s, Lines(part)) && (edge ==> Harmless(s, part))
  {
    EmptyIsNoHit(s);
    assert printed + [] == printed;
    PrintsMatchingLinesIff(s, edge, part);
  }

  /** The search and the close. */
  method SearchAndClose(d: Descriptors, fd: int, ghost f: Source, ghost part: text, ghost whole: bool,
                        s: text, fname: text, data: array<byte>)
    returns (r: int, out: text, ghost printed: seq<text>, ghost unfinished: text)
    requires Reading(d, fd, f, part, whole, 0) && fd >= FIRST_VALID_INDEX
    requires NUL !in part && NUL !in s && data.Length == WINDOW + 1
    modifies d`tables, data
    ensures d.Valid() && d.current == old(d.current) && (r == 0 || r == -1) && (r == 0 <==> whole)
    ensures d.Others(fd) == old(d.Others(fd)) && (r == -1 ==> d.tables[d.current][fd].on)
    ensures r == 0 ==> d.tables == old(d.Others(fd))
    ensures Output(s, old(Edge(data)), part, fname, r, out, printed, unfinished)
    ensures Edge(data) ==> old(Edge(data))
  {
    ghost var edge := Edge(data);
    r, out, printed, unfinished := SearchFile(d, fd, f, part, whole, s, fname, data);
    if r == 0 {
      AllPrinted(s, edge, part, printed);
      r := CloseAgain(d, fd);
    }
  }

  method CloseAgain(d: Descriptors, fd: int) returns (r: int)
    requires d.Valid() && FIRST_VALID_INDEX <= fd < MAX_OPEN_FILES && d.tables[d.current][fd].on
    modifies d`tables
    ensures d.Valid() && d.current == old(d.current) && r == 0
    ensures d.tables == old(d.Others(fd)) == d.Others(fd)
  {
    r := d.Close(fd);
    assert d.tables[d.current] == d.tables[d.current][fd := EMPTY];
  }

  /** `do_one_file`, whatever the window held before. The descriptor tables end as they began if the file can be read to its
      end; after a failed read the descriptor stays open. */
  method DoOneFile(d: Descriptors, s: text, fname: text, data: array<byte>)
    returns (r: int, out: text, ghost k: nat, ghost fd: int, ghost printed: seq<text>, ghost unfinished: text)
    requires d.Valid() && Searchable(d.img, fname) && NUL !in s && data.Length == WINDOW + 1
    modifies d`tables, data
    ensures d.Valid() && d.current == old(d.current) && (r == 0 || r == -1) && (Edge(data) ==> old(Edge(data)))
    ensures !old(Opening(d, fname)) ==> r == -1 && out == OPEN_FAILED && d.tables == old(d.tables)
    ensures old(Opening(d, fname)) ==>
              && FirstNamed(d.img, Queried(fname, NAME_SIZE), k)
              && var f := SourceOf(d.img, d.img.entries[k]);
                 && (r == 0 <==> Whole(f))
                 && Output(s, old(Edge(data)), PartOf(f), fname, r, out, printed, unfinished)
    ensures r == 0 ==> d.tables == old(d.tables)
    ensures old(Opening(d, fname)) && r == -1 ==>
              LowestFree(old(d.tables[d.current]), fd) && d.tables[d.current][fd].on && d.Others(fd) == old(d.tables)
  {
    printed, unfinished := [], [];
    var descriptor;
    descriptor, k := d.Open(fname);
    fd := descriptor;
    if descriptor == -1 {
      return -1, OPEN_FAILED, k, fd, printed, unfinished;
    }
    ghost var f := SourceOf(d.img, d.img.entries[k]);
    BlankAgain(old(d.tables), d.current, fd, Descriptors.OpenedAs(d.img.entries[k]));
    r, out, printed, unfinished := SearchAndClose(d, descriptor, f, PartOf(f), Whole(f), s, fname, data);
  }
}
