/** A typed line on its way to a program: terminal.c, keyboard.c, the shell, `parse_cmd_args`, the PCB and `getargs`. */
module CommandLine {
  import opened Bytes
  import LineEditor
  import Console

  type text = seq<byte>

  // ---------------------------------------------------------------------
  // Words of a line
  // ---------------------------------------------------------------------

  /** The first index from `i` on that is not a space. */
  ghost function SkipSpaces(s: text, i: nat): (k: nat)
    requires i <= |s|
    ensures i <= k <= |s| && (forall j | i <= j < k :: s[j] == SPACE) && (k < |s| ==> s[k] != SPACE)
    decreases |s| - i
  {
    if i < |s| && s[i] == SPACE then SkipSpaces(s, i + 1) else i
  }

  /** The first index from `i` on that is a space. */
  ghost function WordEnd(s: text, i: nat): (k: nat)
    requires i <= |s|
    ensures i <= k <= |s| && (forall j | i <= j < k :: s[j] != SPACE) && (k < |s| ==> s[k] == SPACE)
    decreases |s| - i
  {
    if i < |s| && s[i] != SPACE then WordEnd(s, i + 1) else i
  }

  /** `s` without its leading spaces; its first word; what follows that word and its spaces. */
  ghost function Stripped(s: text): (r: text) {
    s[SkipSpaces(s, 0)..]
  }

  ghost function FirstWord(s: text): (w: text) {
    s[..WordEnd(s, 0)]
  }

  ghost function Arguments(s: text): (a: text) {
    s[SkipSpaces(s, WordEnd(s, 0))..]
  }

  /** `s` without its trailing spaces. */
  ghost function Trimmed(s: text): (r: text)
    ensures r <= s && (forall j | |r| <= j < |s| :: s[j] == SPACE) && (r != [] ==> r[|r| - 1] != SPACE)
  {
    if s == [] || s[|s| - 1] != SPACE then s else Trimmed(s[..|s| - 1])
  }

  // The parts of a line, said without the definitions

  ghost predicate AllSpaces(s: text) {
    forall j | 0 <= j < |s| :: s[j] == 32
  }

  /** Leading spaces are dropped. */
  lemma {:induction false} SpacesSkipped(front: text, sp: text, rest: text, s: text)
    requires AllSpaces(sp) && (rest == [] || rest[0] != 32) && s == front + sp + rest
    ensures SkipSpaces(s, |front|) == |front| + |sp|
  {
    assert forall j | |front| <= j < |front| + |sp| :: s[j] == sp[j - |front|];
    assert rest != [] ==> s[|front| + |sp|] == rest[0];
  }

  lemma StrippedIs(sp: text, rest: text)
    requires AllSpaces(sp) && (rest == [] || rest[0] != 32)
    ensures Stripped(sp + rest) == rest
  {
    assert [] + sp + rest == sp + rest;
    SpacesSkipped([], sp, rest, sp + rest);
  }

  /** A word, spaces and what follows them: the word is the command, what follows are the arguments. */
  lemma WordAndArguments(w: text, sp: text, a: text)
    requires 32 !in w && AllSpaces(sp) && (a == [] || (a[0] != 32 && sp != []))
    ensures FirstWord(w + sp + a) == w && Arguments(w + sp + a) == a
  {
    var s := w + sp + a;
    assert forall j | 0 <= j < |w| :: s[j] == w[j] && w[j] in w;
    assert WordEnd(s, 0) == |w| by {
      assert sp != [] ==> s[|w|] == sp[0];
    }
    SpacesSkipped(w, sp, a, s);
  }

  /** Trailing spaces are trimmed. */
  lemma {:induction false} TrimmedIs(a: text, sp: text)
    requires AllSpaces(sp) && (a == [] || a[|a| - 1] != 32)
    ensures Trimmed(a + sp) == a
    decreases |sp|
  {
    if sp == [] {
      assert a + sp == a;
    } else {
      var n := |sp| - 1;
      assert (a + sp)[..|a| + n] == a + sp[..n];
      TrimmedIs(a, sp[..n]);
    }
  }

  // ---------------------------------------------------------------------
  // From the save buffer to the shell
  // ---------------------------------------------------------------------

  /** The buffer holds the C string `s`. */
  ghost predicate HoldsString(m: text, s: text) {
    |s| < |m| && m[..|s|] == s && m[|s|] == NUL && NUL !in s
  }

  /** A line in the save buffer: what was typed, up to the first key without a character. */
  ghost predicate Saved(saved: text, line: text) {
    |saved| == BUFFER_SIZE && HoldsString(saved, line) && NEWLINE !in line
  }

  /** What a read of at most `n` bytes takes of a line: at most `n` leading spaces are dropped, at most `n` bytes kept. */
  ghost function Taken(line: text, n: nat): (r: text)
    ensures |r| <= n
    ensures n >= |line| ==> r == Stripped(line)
  {
    var rest := line[Min(SkipSpaces(line, 0), n)..];
    rest[..Min(|rest|, n)]
  }

  lemma TakenIs(sp: text, rest: text, n: nat)
    requires AllSpaces(sp) && (rest == [] || rest[0] != 32) && |sp| <= n
    ensures Taken(sp + rest, n) == rest[..Min(|rest|, n)]
  {
    assert [] + sp + rest == sp + rest;
    SpacesSkipped([], sp, rest, sp + rest);
    assert (sp + rest)[|sp|..] == rest;
  }

  /** The two loops of `terminal_retrieve`: leading spaces are passed over ... */
  method SkipLeading(saved: text, nbytes: int, ghost line: text, ghost n: nat) returns (i: nat)
    requires Saved(saved, line) && n == if nbytes < 0 then 0 else nbytes
    ensures i <= |line| && i == Min(SkipSpaces(line, 0), n)
  {
    assert forall j | 0 <= j < |line| :: saved[j] == saved[..|line|][j] == line[j];
    i := 0;
    while i < BUFFER_SIZE && i < nbytes && saved[i] == SPACE
      invariant i <= |line| && i <= n && SkipSpaces(line, 0) == SkipSpaces(line, i)
    {
      i := i + 1;
    }
  }

  /** ... and the rest is copied up to its end or the size of the buffer. */
  method CopyLine(saved: text, from: nat, buf: array<byte>, nbytes: int, ghost line: text, ghost n: nat) returns (cnt: nat)
    requires Saved(saved, line) && from <= |line| && nbytes <= buf.Length && n == if nbytes < 0 then 0 else nbytes
    modifies buf
    ensures cnt == Min(|line| - from, n) && (cnt < nbytes ==> buf[cnt] == NUL)
    ensures forall j | 0 <= j < cnt :: buf[j] == line[from + j]
    ensures forall j | 0 <= j < buf.Length && (cnt < j || nbytes <= j) :: buf[j] == old(buf[j])
  {
    assert forall j | 0 <= j < |line| :: saved[j] == saved[..|line|][j] == line[j];
    var i := from;
    cnt := 0;
    while cnt < nbytes && i < BUFFER_SIZE
      invariant i == from + cnt <= |line| && cnt <= n
      invariant forall j | 0 <= j < cnt :: buf[j] == line[from + j]
      invariant forall j | cnt <= j < buf.Length :: buf[j] == old(buf[j])
    {
      buf[cnt] := saved[i];
      if saved[i] == NUL {
        break;
      }
      cnt := cnt + 1;
      i := i + 1;
    }
  }

  /** `terminal_retrieve`: the terminator follows if there is room for it, and nothing else changes. */
  method TerminalRetrieve(saved: text, buf: array<byte>, nbytes: int, ghost line: text) returns (cnt: nat)
    requires Saved(saved, line) && nbytes <= buf.Length
    modifies buf
    ensures var taken := Taken(line, if nbytes < 0 then 0 else nbytes);
            cnt == |taken| && buf[..cnt] == taken && (cnt < nbytes ==> buf[cnt] == NUL)
    ensures forall j | 0 <= j < buf.Length && (cnt < j || nbytes <= j) :: buf[j] == old(buf[j])
  {
    ghost var n: nat := if nbytes < 0 then 0 else nbytes;
    var first := SkipLeading(saved, nbytes, line, n);
    cnt := CopyLine(saved, first, buf, nbytes, line, n);
    assert buf[..cnt] == line[first..][..cnt];
  }

  const EXIT: text := [101, 120, 105, 116]

  /** The memory at a buffer after `terminal_retrieve` has put `taken` there. */
  ghost function Retrieved(was: text, taken: text, nbytes: int): (now: text)
    requires |taken| < |was|
    ensures |now| == |was|
  {
    if |taken| < nbytes then taken + [NUL] + was[|taken| + 1..] else taken + was[|taken|..]
  }

  /** The first four bytes are `exit`. */
  ghost predicate SaysExit(m: text) {
    4 <= |m| && m[..4] == EXIT
  }

  /** `strncmp (buf, "exit", 4) == 0`. */
  method IsExit(buf: array<byte>) returns (yes: bool)
    requires 4 <= buf.Length
    ensures yes <==> SaysExit(buf[..])
  {
    var i := 0;
    while i < 4 && buf[i] == EXIT[i]
      invariant 0 <= i <= 4 && forall j | 0 <= j < i :: buf[j] == EXIT[j]
    {
      i := i + 1;
    }
    yes := i == 4;
    assert yes ==> buf[..4] == EXIT;
    assert SaysExit(buf[..]) ==> forall j | 0 <= j < 4 :: buf[j] == buf[..4][j];
  }

  /** `keyboard_read`, where `buf` is the caller's buffer and the memory behind it. A newline follows the line unless the
      buffer now says `exit`. It lands behind the `nbytes` bytes the caller gave, and the count is one more than was
      asked for, exactly when the line fills the buffer and does not say so. */
  method KeyboardRead(saved: text, buf: array<byte>, nbytes: int, ghost line: text) returns (cnt: nat)
    requires Saved(saved, line) && 4 <= buf.Length && nbytes < buf.Length
    modifies buf
    ensures var n: nat := if nbytes < 0 then 0 else nbytes;
            var taken := Taken(line, n);
            var now := Retrieved(old(buf[..]), taken, nbytes);
            && (SaysExit(now) ==> cnt == |taken| && buf[..] == now)
            && (!SaysExit(now) ==> cnt == |taken| + 1 && buf[..] == now[|taken| := NEWLINE])
            && (cnt == n + 1 <==> |taken| == n && !SaysExit(now))
  {
    ghost var was := buf[..];
    cnt := TerminalRetrieve(saved, buf, nbytes, line);
    ghost var taken := Taken(line, if nbytes < 0 then 0 else nbytes);
    assert buf[..] == Retrieved(was, taken, nbytes);
    var leaving := IsExit(buf);
    if !leaving {
      buf[cnt] := NEWLINE;
      cnt := cnt + 1;
    }
  }

  /** The lines of the shell that read a line: a newline at its end is replaced by the terminator. Either way the
      command is the line without leading spaces. */
  method ReadLine(saved: text, buf: array<byte>, ghost line: text)
    requires Saved(saved, line) && buf.Length == 1024
    modifies buf
    ensures HoldsString(buf[..], Stripped(line))
  {
    ghost var cmd, was := Stripped(line), buf[..];
    var cnt := KeyboardRead(saved, buf, 1023, line);
    ghost var now := Retrieved(was, cmd, 1023);
    assert forall j | 0 <= j < |cmd| :: buf[j] == buf[..][j] == now[j] == cmd[j];
    if cnt > 0 && buf[cnt - 1] == NEWLINE {
      cnt := cnt - 1;
    }
    buf[cnt] := NUL;
    assert cnt == |cmd| && buf[..][..|cmd|] == cmd;
  }

  lemma ExitAlone(m: text, s: text)
    requires HoldsString(m, s) && 4 < |m|
    ensures SaysExit(m) && m[4] == NUL <==> s == EXIT
  {
    assert forall j | 0 <= j < |s| :: m[j] == m[..|s|][j] == s[j] != NUL;
    if SaysExit(m) && m[4] == NUL {
      assert forall j | 0 <= j < 4 :: m[j] == m[..4][j] == EXIT[j] != NUL;
      assert |s| == 4;
    }
  }

  /** ... and leave on `exit`. */
  method ReadCommand(saved: text, buf: array<byte>, ghost line: text) returns (leave: bool)
    requires Saved(saved, line) && buf.Length == 1024
    modifies buf
    ensures HoldsString(buf[..], Stripped(line))
    ensures leave <==> Stripped(line) == [101, 120, 105, 116]
  {
    ReadLine(saved, buf, line);
    var says := IsExit(buf);
    leave := says && buf[4] == NUL;
    ExitAlone(buf[..], Stripped(line));
  }

  // ---------------------------------------------------------------------
  // From the shell to the PCB
  // ---------------------------------------------------------------------

  /** The part of a command that is looked at. */
  ghost function Head(s: text): (t: text) {
    s[..Min(|s|, BUFFER_SIZE)]
  }

  /** The first half of `parse_cmd_args`. */
  method ParseCommand(buf: array<byte>, comm: array<byte>, ghost s: text, ghost t: text) returns (i: nat)
    requires BUFFER_SIZE <= buf.Length && comm != buf && HoldsString(comm[..], s) && t == Head(s)
    requires |FirstWord(t)| < buf.Length
    modifies buf
    ensures i == |FirstWord(t)| && buf[..i] == FirstWord(t) && buf[i] == NUL
    ensures forall j | i < j < buf.Length :: buf[j] == old(buf[j])
  {
    assert forall j | 0 <= j < |s| :: comm[j] == comm[..][j] == s[j] != NUL;
    assert forall j | 0 <= j < |t| :: t[j] == s[j];
    i := 0;
    while comm[i] != SPACE && comm[i] != NUL && i < BUFFER_SIZE
      invariant i <= |t| && WordEnd(t, 0) == WordEnd(t, i)
      invariant forall j | 0 <= j < i :: buf[j] == t[j]
      invariant forall j | i <= j < buf.Length :: buf[j] == old(buf[j])
      decreases |t| - i
    {
      buf[i] := comm[i];
      i := i + 1;
    }
    buf[i] := NUL;
    assert buf[..i] == t[..i];
  }

  /** The second half: from the end of the first word. It never leaves the 128 bytes of `cmd_args`. */
  method ParseArguments(cmdArgs: array<byte>, comm: array<byte>, end: nat, ghost s: text, ghost t: text)
    requires cmdArgs.Length == BUFFER_SIZE && comm != cmdArgs && HoldsString(comm[..], s) && t == Head(s)
    requires end == |FirstWord(t)|
    modifies cmdArgs
    ensures HoldsString(cmdArgs[..], Arguments(t))
    ensures forall j | |Arguments(t)| < j < BUFFER_SIZE :: cmdArgs[j] == old(cmdArgs[j])
  {
    assert forall j | 0 <= j < |s| :: comm[j] == comm[..][j] == s[j] != NUL;
    assert forall j | 0 <= j < |t| :: t[j] == s[j];
    var i := end;
    while comm[i] == SPACE && comm[i] != NUL && i < BUFFER_SIZE
      invariant end <= i <= |t| && SkipSpaces(t, end) == SkipSpaces(t, i)
      invariant t != [] && i == 0 ==> t[0] == SPACE
      decreases |t| - i
    {
      i := i + 1;
    }
    CopyArguments(cmdArgs, comm, i, s, t);
  }

  /** Its last loop, from the start of the arguments. */
  method CopyArguments(cmdArgs: array<byte>, comm: array<byte>, first: nat, ghost s: text, ghost t: text)
    requires cmdArgs.Length == BUFFER_SIZE && comm != cmdArgs && HoldsString(comm[..], s) && t == Head(s)
    requires first <= |t| && (t != [] ==> first > 0)
    modifies cmdArgs
    ensures HoldsString(cmdArgs[..], t[first..])
    ensures forall j | |t| - first < j < BUFFER_SIZE :: cmdArgs[j] == old(cmdArgs[j])
  {
    assert forall j | 0 <= j < |s| :: comm[j] == comm[..][j] == s[j] != NUL;
    assert forall j | 0 <= j < |t| :: t[j] == s[j];
    var k := first;
    while comm[k] != NUL && k != BUFFER_SIZE
      invariant first <= k <= |t|
      invariant forall j | 0 <= j < k - first :: cmdArgs[j] == t[first + j]
      invariant forall j | k - first <= j < BUFFER_SIZE :: cmdArgs[j] == old(cmdArgs[j])
      decreases |t| - k
    {
      cmdArgs[k - first] := comm[k];
      k := k + 1;
    }
    cmdArgs[k - first] := NUL;
    assert cmdArgs[..][..k - first] == t[first..];
  }

  /** `parse_cmd_args`, for a command of any length: of its first 128 characters, the first word and the rest. Only the
      terminator of the word can lie outside the 128 bytes of its buffer, which it does exactly when the first word of
      the command has 128 characters or more. */
  method ParseCmdArgs(buf: array<byte>, cmdArgs: array<byte>, comm: array<byte>, ghost s: text)
    requires BUFFER_SIZE <= buf.Length && (|FirstWord(s)| >= BUFFER_SIZE ==> BUFFER_SIZE < buf.Length)
    requires cmdArgs.Length == BUFFER_SIZE && buf != cmdArgs && comm != buf && comm != cmdArgs && HoldsString(comm[..], s)
    modifies buf, cmdArgs
    ensures HoldsString(buf[..], FirstWord(Head(s))) && HoldsString(cmdArgs[..], Arguments(Head(s)))
    ensures |FirstWord(Head(s))| == Min(|FirstWord(s)|, BUFFER_SIZE)
    ensures forall j | BUFFER_SIZE <= j < buf.Length ::
              buf[j] == if j == BUFFER_SIZE && |FirstWord(s)| >= BUFFER_SIZE then NUL else old(buf[j])
    ensures forall j | |Arguments(Head(s))| < j < BUFFER_SIZE :: cmdArgs[j] == old(cmdArgs[j])
    ensures |s| <= BUFFER_SIZE ==> Head(s) == s
  {
    ghost var t := Head(s);
    HeadWord(s, t);
    var end := ParseCommand(buf, comm, s, t);
    assert buf[..][..end] == buf[..end];
    ParseArguments(cmdArgs, comm, end, s, t);
  }

  lemma {:induction false} WordEndIs(s: text, i: nat, k: nat)
    requires i <= k <= |s| && (forall j | i <= j < k :: s[j] != SPACE) && (k < |s| ==> s[k] == SPACE)
    ensures WordEnd(s, i) == k
    decreases k - i
  {
    if i < k {
      WordEndIs(s, i + 1, k);
    }
  }

  lemma HeadWord(s: text, t: text)
    requires t == Head(s)
    ensures |FirstWord(t)| == Min(|FirstWord(s)|, BUFFER_SIZE)
  {
    WordEndIs(t, 0, Min(WordEnd(s, 0), |t|));
  }

  /** `strcpy` of lib.c: what lies beyond the terminator stays as it was. */
  method Strcpy(dst: array<byte>, src: array<byte>, ghost s: text)
    requires dst != src && HoldsString(src[..], s) && |s| < dst.Length
    modifies dst
    ensures HoldsString(dst[..], s) && dst[|s| + 1..] == old(dst[|s| + 1..])
  {
    assert forall j | 0 <= j < |s| :: src[j] == src[..][j] == s[j] != NUL;
    var i := 0;
    while src[i] != NUL
      invariant i <= |s| && forall j | 0 <= j < dst.Length :: dst[j] == if j < i then s[j] else old(dst[j])
      decreases |s| - i
    {
      dst[i] := src[i];
      i := i + 1;
    }
    dst[i] := NUL;
    assert dst[..][..i] == s;
  }

  // ---------------------------------------------------------------------
  // getargs
  // ---------------------------------------------------------------------

  predicate Blank(c: byte) {
    c == SPACE || c == NUL
  }

  ghost predicate AllBlank(s: text) {
    forall j | 0 <= j < |s| :: Blank(s[j])
  }

  /** The bytes up to the last one that is neither a space nor NUL. */
  ghost function Kept(s: text): (r: text)
    ensures r <= s && (forall j | |r| <= j < |s| :: Blank(s[j])) && (r != [] ==> !Blank(r[|r| - 1]))
  {
    if s == [] || !Blank(s[|s| - 1]) then s else Kept(s[..|s| - 1])
  }

  /** The backward scan comes to byte `k` below the buffer. */
  ghost predicate Scanned(mem: text, at: nat, nbytes: nat, args: text, k: nat)
    requires k < at <= |mem|
  {
    nbytes > BUFFER_SIZE && AllBlank(args) && forall j | k <= j < at :: Blank(mem[j])
  }

  /** `getargs` into `mem[at..at + nbytes]`, where `args` are all 128 bytes of the PCB field and `nbytes` is the count as the
      code compares it, unsigned. It fails for every buffer of at most 128 bytes. In a larger one it clears the blanks at
      the end; the scan has no lower bound, so with blank arguments it clears the blanks below the buffer too, up to the
      first byte that is something else. */
  method GetArgs(mem: array<byte>, at: nat, nbytes: nat, args: text) returns (r: int)
    requires |args| == BUFFER_SIZE && at + nbytes <= mem.Length
    requires nbytes > BUFFER_SIZE && AllBlank(args) ==> exists j :: 0 <= j < at && !Blank(mem[j])
    modifies mem
    ensures nbytes <= BUFFER_SIZE ==> r == -1 && mem[at..at + nbytes] == args[..nbytes]
    ensures nbytes > BUFFER_SIZE ==>
              && (forall k | at <= k < at + nbytes :: mem[k] == if k - at < |Kept(args)| then args[k - at] else NUL)
              && r == if Kept(args) == [] || args[0] == NUL then -1 else 0
    ensures forall k | 0 <= k < at :: mem[k] == if Scanned(old(mem[..]), at, nbytes, args, k) then NUL else old(mem[k])
    ensures mem[..at] != old(mem[..at]) <==>
            exists k: nat | k < at :: Scanned(old(mem[..]), at, nbytes, args, k) && old(mem[k]) == SPACE
    ensures forall k | at + nbytes <= k < mem.Length :: mem[k] == old(mem[k])
  {
    ghost var was := mem[..];
    var i := FillArgs(mem, at, nbytes, args);
    if i == nbytes {
      assert mem[at..at + nbytes] == args[..nbytes];
      r := -1;
    } else {
      TrimArgs(mem, at, nbytes, args, was);
      r := if mem[at] == NUL then -1 else 0;
    }
    BelowChanged(was, mem[..], at, nbytes, args);
  }

  /** The backward scan over a buffer that holds the PCB field, when it is larger than that. */
  method TrimArgs(mem: array<byte>, at: nat, nbytes: nat, ghost args: text, ghost was: text)
    requires |args| == BUFFER_SIZE < nbytes && at + nbytes <= mem.Length == |was|
    requires AllBlank(args) ==> exists j :: 0 <= j < at && !Blank(was[j])
    requires forall k | at <= k < at + BUFFER_SIZE :: mem[k] == args[k - at]
    requires forall k | at + BUFFER_SIZE <= k < at + nbytes :: mem[k] == NUL
    requires forall k | 0 <= k < at :: mem[k] == was[k]
    modifies mem
    ensures forall k | at <= k < at + nbytes :: mem[k] == if k - at < |Kept(args)| then args[k - at] else NUL
    ensures forall k | 0 <= k < at :: mem[k] == if Scanned(was, at, nbytes, args, k) then NUL else was[k]
    ensures forall k | at + nbytes <= k < mem.Length :: mem[k] == old(mem[k])
  {
    KeptNone(args);
    ghost var kept := Kept(args);
    TrimBack(mem, at, nbytes, kept);
  }

  /** The two loops that clean the buffer and copy the PCB field. */
  method FillArgs(mem: array<byte>, at: nat, nbytes: nat, args: text) returns (i: nat)
    requires |args| == BUFFER_SIZE && at + nbytes <= mem.Length
    modifies mem
    ensures i == Min(nbytes, BUFFER_SIZE)
    ensures forall k | at <= k < at + i :: mem[k] == args[k - at]
    ensures forall k | at + i <= k < at + nbytes :: mem[k] == NUL
    ensures forall k | 0 <= k < at || at + nbytes <= k < mem.Length :: mem[k] == old(mem[k])
  {
    for c := 0 to nbytes
      invariant forall k | at <= k < at + c :: mem[k] == NUL
      invariant forall k | 0 <= k < at || at + c <= k < mem.Length :: mem[k] == old(mem[k])
    {
      mem[at + c] := NUL;
    }
    i := 0;
    while i < nbytes && i < BUFFER_SIZE
      invariant 0 <= i <= nbytes && i <= BUFFER_SIZE
      invariant forall k | at <= k < at + i :: mem[k] == args[k - at]
      invariant forall k | at + i <= k < at + nbytes :: mem[k] == NUL
      invariant forall k | 0 <= k < at || at + nbytes <= k < mem.Length :: mem[k] == old(mem[k])
    {
      mem[at + i] := args[i];
      i := i + 1;
    }
  }

  lemma {:induction false} KeptNone(s: text)
    ensures Kept(s) == [] <==> AllBlank(s)
  {
    if s != [] && Blank(s[|s| - 1]) {
      var front := s[..|s| - 1];
      KeptNone(front);
      assert AllBlank(s) <==> AllBlank(front) by {
        assert forall j | 0 <= j < |front| :: front[j] == s[j];
      }
    }
  }

  lemma BelowChanged(was: text, now: text, at: nat, nbytes: nat, args: text)
    requires |was| == |now| && at <= |was|
    requires forall k: nat | k < at :: now[k] == if Scanned(was, at, nbytes, args, k) then NUL else was[k]
    ensures now[..at] != was[..at] <==> exists k: nat | k < at :: Scanned(was, at, nbytes, args, k) && was[k] == SPACE
  {
    if k: nat :| k < at && Scanned(was, at, nbytes, args, k) && was[k] == SPACE {
      assert now[..at][k] != was[..at][k];
    } else {
      assert now[..at] == was[..at];
    }
  }

  /** The scan does leave the buffer: with blank arguments a space just below a 129-byte buffer is overwritten. */
  method ScanLeavesBuffer(args: text) returns (was: text, now: text)
    requires |args| == BUFFER_SIZE && AllBlank(args)
    ensures |was| == |now| == 131 && now[0] == was[0] && was[1] == SPACE && now[1] == NUL
  {
    var mem := new byte[131](i => if i == 0 then 65 else SPACE);
    was := mem[..];
    assert !Blank(mem[0]);
    var r := GetArgs(mem, 2, 129, args);
    now := mem[..];
    assert Scanned(was, 2, 129, args, 1) && !Scanned(was, 2, 129, args, 0);
  }

  /** The backward scan, over a buffer whose last non-blank byte ends `kept`. */
  method TrimBack(mem: array<byte>, at: nat, nbytes: nat, ghost kept: text)
    requires 0 < nbytes && at + nbytes <= mem.Length && |kept| <= nbytes
    requires forall k | at + |kept| <= k < at + nbytes :: Blank(mem[k])
    requires kept != [] ==> !Blank(mem[at + |kept| - 1])
    requires kept == [] ==> exists j :: 0 <= j < at && !Blank(mem[j])
    modifies mem
    ensures forall k | at + |kept| <= k < at + nbytes :: mem[k] == NUL
    ensures forall k | at <= k < at + |kept| || at + nbytes <= k < mem.Length :: mem[k] == old(mem[k])
    ensures forall k | 0 <= k < at ::
              mem[k] == if kept == [] && (forall j | k <= j < at :: Blank(old(mem[j]))) then NUL else old(mem[k])
  {
    ghost var floor := at + |kept| - 1;
    if kept == [] {
      floor :| 0 <= floor < at && !Blank(mem[floor]);
    }
    var back := at + nbytes - 1;
    while mem[back] == SPACE || mem[back] == NUL
      invariant 0 <= floor <= back < at + nbytes && !Blank(mem[floor])
      invariant forall k | 0 <= k < mem.Length :: mem[k] == if back < k < at + nbytes then NUL else old(mem[k])
      invariant forall k | back < k < at + nbytes :: Blank(old(mem[k]))
      decreases back
    {
      mem[back] := NUL;
      back := back - 1;
    }
  }

  // ---------------------------------------------------------------------
  // What the program sees
  // ---------------------------------------------------------------------

  /** Arguments `a` in the PCB field, followed by their terminator and by what an earlier program left there. The program
      sees them without trailing spaces if those leftovers are blank, and as they are otherwise. */
  lemma KeptArguments(field: text, a: text)
    requires HoldsString(field, a) && a != [] && a[0] != SPACE
    ensures var shown := if AllBlank(field[|a| + 1..]) then Trimmed(a) else a;
            shown != [] && shown <= Kept(field) && (|shown| < |Kept(field)| ==> Kept(field)[|shown|] == NUL)
  {
    assert forall j | 0 <= j < |a| :: field[j] == field[..|a|][j] == a[j] != NUL;
    if AllBlank(field[|a| + 1..]) {
      assert forall j | |a| < j < |field| :: field[j] == field[|a| + 1..][j - |a| - 1];
      KeptAt(field, |Trimmed(a)|);
    } else {
      var j :| 0 <= j < |field[|a| + 1..]| && !Blank(field[|a| + 1..][j]);
      assert field[|a| + 1 + j] == field[|a| + 1..][j];
      assert |Kept(field)| > |a|;
    }
  }

  lemma {:induction false} KeptAt(s: text, k: nat)
    requires k <= |s| && (forall j | k <= j < |s| :: Blank(s[j])) && (k > 0 ==> !Blank(s[k - 1]))
    ensures Kept(s) == s[..k]
  {
    if k < |s| {
      KeptAt(s[..|s| - 1], k);
    }
  }

  /** The arguments of a line as the program reads them, given what the PCB field held beyond them before. */
  ghost function Seen(a: text, leftover: text): (shown: text) {
    if AllBlank(leftover) then Trimmed(a) else a
  }

  /** A typed line in full: spaces, a word, spaces, arguments, spaces. The command is the word, and over blank leftovers the
      program sees the arguments without the spaces around them. */
  lemma LineParts(pre: text, w: text, mid: text, a: text, post: text, line: text, blank: text)
    requires AllSpaces(pre) && AllSpaces(mid) && AllSpaces(post) && AllBlank(blank)
    requires w != [] && 32 !in w && mid != [] && a != [] && a[0] != 32 && a[|a| - 1] != 32
    requires line == pre + (w + mid + (a + post))
    ensures var cmd := Stripped(line);
            FirstWord(cmd) == w && Arguments(cmd) == a + post && Seen(Arguments(cmd), blank) == a
  {
    var rest := w + mid + (a + post);
    assert rest[0] == w[0] && w[0] in w;
    StrippedIs(pre, rest);
    assert (a + post)[0] == a[0];
    WordAndArguments(w, mid, a + post);
    TrimmedIs(a, post);
  }

  lemma SeenInBuffer(got: text, field: text, shown: text)
    requires |got| > |field| && shown <= Kept(field) && (|shown| < |Kept(field)| ==> Kept(field)[|shown|] == NUL)
    requires NUL !in shown
    requires forall k | 0 <= k < |got| :: got[k] == if k < |Kept(field)| then field[k] else NUL
    ensures HoldsString(got, shown)
  {
  }

  lemma KeptNothing(field: text, a: text)
    requires HoldsString(field, a) && (a != [] ==> a[0] != SPACE)
    ensures Kept(field) == [] ==> a == [] && AllBlank(field[|a| + 1..])
  {
    if a != [] {
      assert field[0] == field[..|a|][0] == a[0];
    } else {
      assert forall j | 0 <= j < |field[1..]| :: field[1..][j] == field[1 + j];
    }
  }

  /** With no arguments and nothing but blanks left in the PCB field, the backward scan of `getargs` leaves the program's
      buffer; it ends if memory below holds something that is not blank. */
  ghost predicate ScanEnds(mem: text, at: nat, nbytes: nat, a: text, leftover: text)
    requires at <= |mem|
  {
    nbytes > BUFFER_SIZE && a == [] && AllBlank(leftover) ==> exists j :: 0 <= j < at && !Blank(mem[j])
  }

  /** From `cmd_args` through the PCB to the program: `getargs` succeeds exactly when there are arguments and the
      program's buffer is larger than 128 bytes. */
  method PassArguments(cmdArgs: array<byte>, field: array<byte>, mem: array<byte>, at: nat, nbytes: nat, ghost a: text)
    returns (r: int)
    requires HoldsString(cmdArgs[..], a) && (a != [] ==> a[0] != SPACE) && field.Length == BUFFER_SIZE > |a|
    requires cmdArgs != field && field != mem && cmdArgs != mem
    requires at + nbytes <= mem.Length && ScanEnds(mem[..], at, nbytes, a, field[|a| + 1..])
    modifies field, mem
    ensures r == 0 <==> a != [] && nbytes > BUFFER_SIZE
    ensures r == 0 ==> HoldsString(mem[at..at + nbytes], Seen(a, old(field[|a| + 1..])))
  {
    Strcpy(field, cmdArgs, a);
    r := FetchArguments(field, mem, at, nbytes, a);
  }

  /** ... and from the PCB on. */
  method FetchArguments(field: array<byte>, mem: array<byte>, at: nat, nbytes: nat, ghost a: text) returns (r: int)
    requires field != mem && field.Length == BUFFER_SIZE && HoldsString(field[..], a) && (a != [] ==> a[0] != SPACE)
    requires at + nbytes <= mem.Length && ScanEnds(mem[..], at, nbytes, a, field[|a| + 1..])
    modifies mem
    ensures r == 0 <==> a != [] && nbytes > BUFFER_SIZE
    ensures r == 0 ==> HoldsString(mem[at..at + nbytes], Seen(a, field[|a| + 1..]))
  {
    ghost var args := field[..];
    KeptNothing(args, a);
    KeptNone(args);
    assert args[|a| + 1..] == field[|a| + 1..] && forall j | 0 <= j < at :: mem[..][j] == mem[j];
    r := GetArgs(mem, at, nbytes, field[..]);
    if a != [] && nbytes > BUFFER_SIZE {
      KeptArguments(args, a);
      SeenInBuffer(mem[at..at + nbytes], args, Seen(a, args[|a| + 1..]));
    }
  }

  /** A typed line from the save buffer to a program that asks for its arguments. The shell leaves on `exit` and skips an
      empty line; otherwise the command is the first word, the arguments are the rest without leading spaces, and all of
      it stays inside the 128-byte buffers. */
  method FromLineToProgram(saved: text, ghost line: text, shellBuf: array<byte>, command: array<byte>,
                           cmdArgs: array<byte>, field: array<byte>, mem: array<byte>, at: nat, nbytes: nat)
    returns (leave: bool, skip: bool, r: int)
    requires Saved(saved, line) && shellBuf.Length == 1024
    requires command.Length == cmdArgs.Length == field.Length == BUFFER_SIZE
    requires shellBuf != command && shellBuf != cmdArgs && shellBuf != field && shellBuf != mem
    requires command != cmdArgs && command != field && command != mem && cmdArgs != field && cmdArgs != mem && field != mem
    requires at + nbytes <= mem.Length
    requires var cmd := Stripped(line);
             cmd != [] && cmd != EXIT ==> ScanEnds(mem[..], at, nbytes, Arguments(cmd), field[|Arguments(cmd)| + 1..])
    modifies shellBuf, command, cmdArgs, field, mem
    ensures leave <==> Stripped(line) == EXIT
    ensures skip <==> Stripped(line) == []
    ensures var cmd := Stripped(line);
            var a := Arguments(cmd);
            !leave && !skip ==>
              && HoldsString(command[..], FirstWord(cmd))
              && (r == 0 <==> a != [] && nbytes > BUFFER_SIZE)
              && (r == 0 ==> HoldsString(mem[at..at + nbytes], Seen(a, old(field[|a| + 1..]))))
  {
    r := -1;
    leave := ReadCommand(saved, shellBuf, line);
    ghost var cmd := Stripped(line);
    skip := shellBuf[0] == NUL;
    assert cmd != [] ==> shellBuf[..][0] == cmd[0];
    if leave || skip {
      return;
    }
    ghost var a := Arguments(cmd);
    ParseCmdArgs(command, cmdArgs, shellBuf, cmd);
    r := PassArguments(cmdArgs, field, mem, at, nbytes, a);
  }

  /** From the keyboard on: whatever keys are pressed before Enter, wherever the cursor was, the program gets the line
      that the keys leave after all corrections, up to the first key without a character. */
  method FromKeysToProgram(editor: LineEditor.Editor, ks: seq<LineEditor.Key>, ghost line: text,
                           shellBuf: array<byte>, command: array<byte>, cmdArgs: array<byte>, field: array<byte>,
                           mem: array<byte>, at: nat, nbytes: nat)
    returns (leave: bool, skip: bool, r: int)
    requires editor.Valid() && editor.Line() == [] && forall k <- ks :: k.Type? ==> !Console.IsNewline(k.c)
    requires line == UpToNul(LineEditor.EditedAll([], ks))
    requires shellBuf.Length == 1024 && command.Length == cmdArgs.Length == field.Length == BUFFER_SIZE
    requires shellBuf != command && shellBuf != cmdArgs && shellBuf != field && shellBuf != mem
    requires command != cmdArgs && command != field && command != mem && cmdArgs != field && cmdArgs != mem && field != mem
    requires var buffer := editor.buffer;
             buffer != shellBuf && buffer != command && buffer != cmdArgs && buffer != field && buffer != mem
    requires var saved := editor.saved;
             saved != shellBuf && saved != command && saved != cmdArgs && saved != field && saved != mem
    requires at + nbytes <= mem.Length
    requires var cmd := Stripped(line);
             cmd != [] && cmd != EXIT ==> ScanEnds(mem[..], at, nbytes, Arguments(cmd), field[|Arguments(cmd)| + 1..])
    modifies editor, editor.screen, editor.screen.video, editor.buffer, editor.saved, shellBuf, command, cmdArgs, field, mem
    ensures editor.Valid() && editor.Line() == []
    ensures leave <==> Stripped(line) == EXIT
    ensures skip <==> Stripped(line) == []
    ensures var cmd := Stripped(line);
            var a := Arguments(cmd);
            !leave && !skip ==>
              && HoldsString(command[..], FirstWord(cmd))
              && (r == 0 <==> a != [] && nbytes > BUFFER_SIZE)
              && (r == 0 ==> HoldsString(mem[at..at + nbytes], Seen(a, old(field[|a| + 1..]))))
  {
    EnterLine(editor, ks, line);
    leave, skip, r := FromLineToProgram(editor.saved[..], line, shellBuf, command, cmdArgs, field, mem, at, nbytes);
  }

  /** Keys and Enter: the save buffer holds the line. */
  method EnterLine(editor: LineEditor.Editor, ks: seq<LineEditor.Key>, ghost line: text)
    requires editor.Valid() && editor.Line() == [] && forall k <- ks :: k.Type? ==> !Console.IsNewline(k.c)
    requires line == UpToNul(LineEditor.EditedAll([], ks))
    modifies editor, editor.screen, editor.screen.video, editor.buffer, editor.saved
    ensures editor.Valid() && editor.Line() == [] && Saved(editor.saved[..], line)
  {
    editor.Keys(ks);
    ghost var typed := editor.Line();
    assert NEWLINE !in typed;
    editor.EnterKey();
    assert editor.saved[..][..|typed|] == editor.saved[..|typed|];
    SavedUpToNul(editor.saved[..], typed, line);
  }

  lemma SavedUpToNul(saved: text, typed: text, line: text)
    requires |saved| == BUFFER_SIZE && |typed| < BUFFER_SIZE && saved[..|typed|] == typed && NEWLINE !in typed
    requires line == UpToNul(typed) && forall i | |typed| <= i < BUFFER_SIZE :: saved[i] == NUL
    ensures Saved(saved, line)
  {
    assert forall j | 0 <= j < |typed| :: saved[j] == saved[..|typed|][j] == typed[j];
    assert saved[..|line|] == line;
  }
}
