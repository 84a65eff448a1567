/** The per-process descriptor tables of student-distrib/fd_table.c and the calls that use them. */
module Descriptors {
  import opened Bytes
  import opened Filesystem
  import opened Directory

  const MAX_OPEN_FILES := 8
  const FIRST_VALID_INDEX := 2

  datatype Driver = Keyboard | Terminal | Rtc | Directories | Files

  datatype Fd = Fd(jump: Option<Driver>, inode: int, position: word, on: bool)

  const EMPTY := Fd(None, -1, 0, false)

  type Table = seq<Fd>

  predicate IsInt32(i: int) {
    -0x8000_0000 <= i < 0x8000_0000
  }

  /** A positive amount an `int32_t` can ask for. */
  type count = n: nat | n < 0x8000_0000

  /** A 32-bit signed value read as unsigned. */
  function Unsigned(i: int): (w: word)
    requires IsInt32(i)
  {
    if i < 0 then i + U32 else i
  }

  // ---------------------------------------------------------------------
  // What every call keeps of a table
  // ---------------------------------------------------------------------

  /** Descriptors 0 and 1 are the keyboard and the terminal, a slot is on exactly when it has a driver,
      a free slot is blank, and inode numbers fit their field. */
  ghost predicate Sane(t: Table) {
    && |t| == MAX_OPEN_FILES
    && t[0].jump == Some(Keyboard) && t[1].jump == Some(Terminal)
    && (forall i | 0 <= i < MAX_OPEN_FILES :: (t[i].on <==> t[i].jump.Some?) && IsInt32(t[i].inode))
    && (forall i | FIRST_VALID_INDEX <= i < MAX_OPEN_FILES ::
          && t[i].jump != Some(Keyboard) && t[i].jump != Some(Terminal)
          && (t[i].on || t[i] == EMPTY))
  }

  ghost predicate LowestFree(t: Table, i: int)
    requires |t| == MAX_OPEN_FILES
  {
    2 <= i < 8 && !t[i].on && forall j | 2 <= j < i :: t[j].on
  }

  ghost predicate Full(t: Table)
    requires |t| == MAX_OPEN_FILES
  {
    forall j | 2 <= j < 8 :: t[j].on
  }

  /** What one `open`, `close` or `read` may do to the caller's table. */
  ghost predicate Step(t: Table, t': Table)
    requires |t| == MAX_OPEN_FILES
  {
    || t' == t
    || (exists i, driver, inode | LowestFree(t, i) && driver !in {Keyboard, Terminal} && IsInt32(inode) ::
          t' == t[i := Fd(Some(driver), inode, 0, true)])
    || (exists i | FIRST_VALID_INDEX <= i < MAX_OPEN_FILES && t[i].on :: t' == t[i := EMPTY])
    || (exists i, p: word | 0 <= i < MAX_OPEN_FILES && t[i].on && t[i].jump in {Some(Files), Some(Directories)} ::
          t' == t[i := t[i].(position := p)])
  }

  lemma StepKeepsSane(t: Table, t': Table)
    requires Sane(t) && Step(t, t')
    ensures Sane(t')
  {
  }

  /** Over every run of calls the table stays sane. */
  lemma {:induction false} RunKeepsSane(run: seq<Table>, n: nat)
    requires n < |run| && Sane(run[0])
    requires forall i | 0 <= i < |run| - 1 :: |run[i]| == MAX_OPEN_FILES && Step(run[i], run[i + 1])
    ensures Sane(run[n])
  {
    if n > 0 {
      RunKeepsSane(run, n - 1);
      assert Step(run[n - 1], run[n - 1 + 1]);
      StepKeepsSane(run[n - 1], run[n]);
    }
  }

  // ---------------------------------------------------------------------
  // The calls
  // ---------------------------------------------------------------------

  /** `tables[p]` is `process_array[p]->fd_table`; `current` is `current_process[curr_terminal]`. */
  class Descriptors {
    var tables: seq<Table>
    var current: nat
    const img: Image
    const counts: seq<nat>

    ghost predicate Valid()
      reads this
    {
      && |tables| == MAX_PROCESSES && current < MAX_PROCESSES && Sane(tables[current])
      && LaidOut(img) && img.numEntries <= MAX_ENTRIES && Counted(img, counts)
    }

    /** The only table that changed is the caller's, and it took one step. */
    twostate predicate OnlyCallerStepped()
      requires old(Valid())
      reads this
    {
      && Valid() && current == old(current)
      && Step(old(tables[current]), tables[current])
      && tables == old(tables)[current := tables[current]]
    }

    /** `fd_table_init` on the table of a process that is about to run. */
    method TableInit(pid: nat)
      requires |tables| == MAX_PROCESSES && pid < MAX_PROCESSES
      modifies this`tables
      ensures |tables| == MAX_PROCESSES && tables == old(tables)[pid := tables[pid]]
      ensures Sane(tables[pid])
      ensures tables[pid][0] == Fd(Some(Keyboard), -1, 0, true) && tables[pid][1] == Fd(Some(Terminal), -1, 0, true)
      ensures forall i | FIRST_VALID_INDEX <= i < MAX_OPEN_FILES :: tables[pid][i] == EMPTY
    {
      var t: Table := [];
      for i := 0 to MAX_OPEN_FILES
        invariant |t| == i && forall j | 0 <= j < i :: t[j] == EMPTY
      {
        t := t + [EMPTY];
      }
      t := t[1 := t[1].(on := true, jump := Some(Terminal))];
      t := t[0 := t[0].(on := true, jump := Some(Keyboard))];
      tables := tables[pid := t];
    }

    /** `close_all_fd`: on halt every descriptor of the caller is switched off. */
    method CloseAll()
      requires Valid()
      modifies this`tables
      ensures |tables| == MAX_PROCESSES && |tables[current]| == MAX_OPEN_FILES
      ensures tables == old(tables)[current := tables[current]]
      ensures forall i | 0 <= i < MAX_OPEN_FILES :: tables[current][i] == EMPTY
    {
      var t := tables[current];
      for i := 0 to MAX_OPEN_FILES
        invariant |t| == MAX_OPEN_FILES && forall j | 0 <= j < i :: t[j] == EMPTY
      {
        t := t[i := EMPTY];
      }
      tables := tables[current := t];
    }

    /** `get_fd_index`. */
    method GetFdIndex() returns (r: int)
      requires Valid()
      ensures r == -1 <==> Full(tables[current])
      ensures r != -1 ==> LowestFree(tables[current], r)
    {
      for i := FIRST_VALID_INDEX to MAX_OPEN_FILES
        invariant forall j | FIRST_VALID_INDEX <= j < i :: tables[current][j].on
      {
        if !tables[current][i].on {
          return i;
        }
      }
      return -1;
    }

    method SetFd(i: nat, fd: Fd)
      requires Valid() && i < MAX_OPEN_FILES && Step(tables[current], tables[current][i := fd])
      modifies this`tables
      ensures OnlyCallerStepped() && tables == old(tables)[current := old(tables[current])[i := fd]]
    {
      StepKeepsSane(tables[current], tables[current][i := fd]);
      tables := tables[current := tables[current][i := fd]];
    }

    /** The descriptor that opening directory entry `e` creates. */
    static function OpenedAs(e: Dentry): (fd: Fd) {
      if e.fileType == 0 then Fd(Some(Rtc), -1, 0, true)
      else if e.fileType == 1 then Fd(Some(Directories), -1, 0, true)
      else Fd(Some(Files), SignedWord(e.inode), 0, true)
    }

    /** `open`: the lowest free descriptor, or -1 exactly when the name is unknown or all six are taken. */
    method Open(fname: seq<byte>) returns (r: int, ghost k: nat)
      requires Valid()
      modifies this`tables
      ensures OnlyCallerStepped()
      ensures var query := Queried(fname, NAME_SIZE);
              r == -1 <==> query == [] || (forall j: nat :: !FirstNamed(img, query, j)) || Full(old(tables[current]))
      ensures r == -1 ==> tables == old(tables)
      ensures r != -1 ==>
                && LowestFree(old(tables[current]), r)
                && FirstNamed(img, Queried(fname, NAME_SIZE), k)
                && tables[current][r].jump == Some(if img.entries[k].fileType == 0 then Rtc
                                                   else if img.entries[k].fileType == 1 then Directories else Files)
                && tables[current][r].position == 0 && tables[current][r].on
                && tables == old(tables)[current := old(tables[current])[r := OpenedAs(img.entries[k])]]
    {
      var blank := Dentry(seq(NAME_SIZE, _ => NUL), 0, 0);
      var found, d;
      found, d, k := ReadDentryByName(img, counts, fname, blank);
      if found == -1 {
        return -1, k;
      }
      var i := GetFdIndex();
      if i == -1 {
        return -1, k;
      }
      SetFd(i, OpenedAs(d));
      return i, k;
    }

    predicate CheckValidFd(fd: int)
      requires Valid()
      reads this
    {
      0 <= fd < MAX_OPEN_FILES && tables[current][fd].on
    }

    /** `close`: keyboard and terminal refuse, every other open descriptor becomes free. */
    method Close(fd: int) returns (r: int)
      requires Valid()
      modifies this`tables
      ensures OnlyCallerStepped()
      ensures r == 0 <==> 2 <= fd < 8 && old(tables[current])[fd].on
      ensures r != 0 ==> r == -1 && tables == old(tables)
      ensures r == 0 ==> tables == old(tables)[current := old(tables[current])[fd := EMPTY]]
    {
      if !CheckValidFd(fd) {
        return -1;
      }
      match tables[current][fd].jump.value
      case Keyboard => return -1;
      case Terminal => return -1;
      case Rtc => SetFd(fd, EMPTY); return 0;
      case Directories => SetFd(fd, EMPTY); return 0;
      case Files => SetFd(fd, EMPTY); return 0;
    }

    /** All the tables, descriptor `fd` of the caller apart. */
    ghost function Others(fd: int): (r: seq<Table>)
      requires Valid() && 0 <= fd < MAX_OPEN_FILES
      reads this
    {
      tables[current := tables[current][fd := EMPTY]]
    }

    /** The file behind a descriptor. */
    ghost predicate Opens(fd: int, f: File)
      requires Valid()
      reads this
    {
      && 0 <= fd < MAX_OPEN_FILES
      && tables[current][fd].jump == Some(Files)
      && 0 <= tables[current][fd].inode < |img.inodes|
      && f == FileOf(img, tables[current][fd].inode)
    }

    /** `file_read`: the count goes into an unsigned variable, so a failure (-1) moves the position back by one.
        The position follows what was delivered exactly when the read does not fail. */
    method FileRead(fd: int, buf: array<byte>, at: nat, nbytes: int) returns (r: int)
      requires Valid() && IsInt32(nbytes)
      requires 0 <= fd < MAX_OPEN_FILES && tables[current][fd].jump == Some(Files)
      requires at + |FileBytes(img, tables[current][fd], nbytes)| <= buf.Length
      modifies this`tables, buf
      ensures OnlyCallerStepped() && Others(fd) == old(Others(fd))
      ensures IsInt32(r) && r == FileAnswer(img, old(tables[current])[fd], nbytes)
      ensures Moved(old(tables[current]), tables[current], fd, (old(tables[current])[fd].position + Unsigned(r)) % U32)
      ensures buf[..] == Spliced(old(buf[..]), at, FileBytes(img, old(tables[current])[fd], nbytes))
      ensures var me := old(tables[current])[fd];
              tables[current][fd].position == me.position + |FileBytes(img, me, nbytes)| <==>
              0 <= me.inode < |img.inodes| && !Fails(FileOf(img, me.inode), me.position, Unsigned(nbytes))
    {
      var me := tables[current][fd];
      NothingSpliced(buf[..], at);
      FileFollowsIff(img, me, nbytes);
      r := ReadData(img, Unsigned(me.inode), me.position, buf, at, Unsigned(nbytes));
      AddOffset(fd, (me.position + Unsigned(r)) % U32);
    }

    /** `add_offset`, to position `p`. */
    method AddOffset(fd: int, p: word)
      requires Valid() && 0 <= fd < MAX_OPEN_FILES && tables[current][fd].jump in {Some(Files), Some(Directories)}
      modifies this`tables
      ensures OnlyCallerStepped() && Others(fd) == old(Others(fd)) && Moved(old(tables[current]), tables[current], fd, p)
    {
      ghost var table := tables[current];
      var me := tables[current][fd];
      assert table[fd := me.(position := p)] == table[fd := table[fd].(position := p)];
      assert table[fd := me.(position := p)][fd := EMPTY] == table[fd := EMPTY];
      SetFd(fd, me.(position := p));
      assert Others(fd) == old(tables)[current := table[fd := EMPTY]];
    }

    /** The loop of `dir_read`. */
    static method CopyName(name: seq<byte>, buf: array<byte>, at: nat, nbytes: int, ghost full: seq<byte>) returns (r: nat)
      requires |name| == NAME_SIZE && at <= buf.Length && at + Min(nbytes, |full|) <= buf.Length
      requires full <= name && NUL !in full && (|full| < |name| ==> name[|full|] == NUL)
      modifies buf
      ensures r == Min(|full|, if nbytes < 0 then 0 else nbytes)
      ensures buf[..] == Spliced(old(buf[..]), at, full[..r])
    {
      r := 0;
      ghost var start := buf[..];
      while r < NAME_SIZE && name[r] != NUL && r < nbytes
        invariant r <= |full| && (r <= nbytes || r == 0)
        invariant at + r <= buf.Length
        invariant forall j | at <= j < at + r :: buf[j] == name[j - at]
        invariant forall j | 0 <= j < at || at + r <= j < buf.Length :: buf[j] == start[j]
      {
        buf[at + r] := name[r];
        r := r + 1;
      }
      Stretch(start, at, full[..r], buf[..], name);
    }

    /** `dir_read`: the name of the entry at the position, cut to `nbytes`; the position counts entries. */
    method DirRead(fd: int, buf: array<byte>, at: nat, nbytes: int) returns (r: nat)
      requires Valid() && 0 <= fd < MAX_OPEN_FILES && tables[current][fd].jump == Some(Directories)
      requires at + |NameBytes(img, tables[current][fd], nbytes)| <= buf.Length
      modifies this`tables, buf
      ensures OnlyCallerStepped() && Others(fd) == old(Others(fd))
      ensures r == |NameBytes(img, old(tables[current])[fd], nbytes)|
      ensures Moved(old(tables[current]), tables[current], fd, NextEntry(img, old(tables[current])[fd]))
      ensures buf[..] == Spliced(old(buf[..]), at, NameBytes(img, old(tables[current])[fd], nbytes))
    {
      r := 0;
      var me := tables[current][fd];
      if me.position >= img.numEntries {
        NothingSpliced(buf[..], at);
        return;
      }
      r := CopyName(img.entries[me.position].name, buf, at, nbytes, NameOf(img, me.position));
      AddOffset(fd, me.position + 1);
    }
  }

  // ---------------------------------------------------------------------
  // Runs of calls
  // ---------------------------------------------------------------------

  /** A system call; `other` is what a keyboard, terminal or clock read returns. */
  datatype Call = OpenCall(fname: seq<byte>) | CloseCall(fd: int) | ReadCall(fd: int, nbytes: int, other: int)

  /** What a read of `nbytes` bytes gives through descriptor `me`, open on a file: the value and the bytes. */
  ghost function FileAnswer(img: Image, me: Fd, nbytes: int): (r: int)
    requires LaidOut(img) && IsInt32(nbytes)
  {
    if 0 <= me.inode < |img.inodes| then Verdict(FileOf(img, me.inode), me.position, Unsigned(nbytes)) else -1
  }

  ghost function FileBytes(img: Image, me: Fd, nbytes: int): (bytes: seq<byte>)
    requires LaidOut(img) && IsInt32(nbytes)
  {
    if 0 <= me.inode < |img.inodes| then Delivered(FileOf(img, me.inode), me.position, Unsigned(nbytes)) else []
  }

  lemma FileFollowsIff(img: Image, me: Fd, nbytes: int)
    requires LaidOut(img) && IsInt32(nbytes)
    ensures IsInt32(FileAnswer(img, me, nbytes))
    ensures (me.position + Unsigned(FileAnswer(img, me, nbytes))) % U32 == me.position + |FileBytes(img, me, nbytes)| <==>
            0 <= me.inode < |img.inodes| && !Fails(FileOf(img, me.inode), me.position, Unsigned(nbytes))
  {
    if 0 <= me.inode < |img.inodes| {
      PositionFollowsIff(FileOf(img, me.inode), me.position, Unsigned(nbytes));
    }
  }

  /** ... and open on a directory: the name of an entry, cut to the count. */
  ghost function NameBytes(img: Image, me: Fd, nbytes: int): (bytes: seq<byte>)
    requires LaidOut(img) && img.numEntries <= MAX_ENTRIES
  {
    if me.position >= img.numEntries then []
    else
      var name := NameOf(img, me.position);
      name[..Min(|name|, if nbytes < 0 then 0 else nbytes)]
  }

  ghost function NextEntry(img: Image, me: Fd): (p: word)
    requires img.numEntries <= MAX_ENTRIES
  {
    if me.position >= img.numEntries then me.position else me.position + 1
  }

  lemma Stretch(start: seq<byte>, at: nat, s: seq<byte>, now: seq<byte>, name: seq<byte>)
    requires |now| == |start| && at + |s| <= |start| && s <= name
    requires forall j | at <= j < at + |s| :: now[j] == name[j - at]
    requires forall j | 0 <= j < at || at + |s| <= j < |now| :: now[j] == start[j]
    ensures now == Spliced(start, at, s)
  {
    SplicedIff(start, at, s, now);
  }

  /** Only the position of descriptor `fd` differs. */
  ghost predicate Moved(t: Table, t': Table, fd: int, p: word) {
    0 <= fd < |t| && t' == t[fd := t[fd].(position := p)]
  }

  /** How many bytes a `read` puts into the buffer; what a keyboard read needs is stated with it. */
  ghost function Room(d: Descriptors, fd: int, nbytes: int): (n: nat)
    requires d.Valid() && IsInt32(nbytes)
    reads d
    ensures n <= MAX_BLOCKS * BLOCK_SIZE
  {
    if !(0 <= fd < MAX_OPEN_FILES) then 0
    else
      var me := d.tables[d.current][fd];
      if me.jump == Some(Files) then |FileBytes(d.img, me, nbytes)|
      else if me.jump == Some(Directories) then |NameBytes(d.img, me, nbytes)|
      else 0
  }

  /** `read`: by the driver of the descriptor; -1 for a descriptor that is not open, or as the driver says. A file gives
      what `file_read` gives, a directory what `dir_read` gives. */
  method Read(d: Descriptors, fd: int, buf: array<byte>, at: nat, nbytes: int, other: int) returns (r: int)
    requires d.Valid() && IsInt32(nbytes) && at + Room(d, fd, nbytes) <= buf.Length
    modifies d`tables, buf
    ensures d.OnlyCallerStepped() && (0 <= fd < MAX_OPEN_FILES ==> d.Others(fd) == old(d.Others(fd)))
    ensures var t, t' := old(d.tables[d.current]), d.tables[d.current];
            if !(0 <= fd < MAX_OPEN_FILES && t[fd].on) then
              r == -1 && d.tables == old(d.tables) && buf[..] == old(buf[..])
            else if t[fd].jump == Some(Files) then
              && IsInt32(r) && r == FileAnswer(d.img, t[fd], nbytes)
              && Moved(t, t', fd, (t[fd].position + Unsigned(r)) % U32)
              && buf[..] == Spliced(old(buf[..]), at, FileBytes(d.img, t[fd], nbytes))
            else if t[fd].jump == Some(Directories) then
              && r == |NameBytes(d.img, t[fd], nbytes)|
              && Moved(t, t', fd, NextEntry(d.img, t[fd]))
              && buf[..] == Spliced(old(buf[..]), at, NameBytes(d.img, t[fd], nbytes))
            else
              r == other && d.tables == old(d.tables) && (t[fd].jump != Some(Keyboard) ==> buf[..] == old(buf[..]))
  {
    if !d.CheckValidFd(fd) {
      return -1;
    }
    match d.tables[d.current][fd].jump.value
    case Keyboard => return other;
    case Terminal => return other;
    case Rtc => return other;
    case Directories => r := d.DirRead(fd, buf, at, nbytes);
    case Files => r := d.FileRead(fd, buf, at, nbytes);
  }

  /** What a call answers and does to the table of its caller. */
  ghost predicate Answers(img: Image, t: Table, call: Call, r: int, t': Table)
    requires LaidOut(img) && img.numEntries <= MAX_ENTRIES && |t| == 8
  {
    match call
    case OpenCall(fname) =>
      var query := Queried(fname, 32);
      var k := Lookup(img, query, 0);
      if query == [] || k == MAX_ENTRIES || Full(t) then r == -1 && t' == t
      else LowestFree(t, r) && t' == t[r := Descriptors.OpenedAs(img.entries[k])]
    case CloseCall(fd) =>
      if 2 <= fd < 8 && t[fd].on then r == 0 && t' == t[fd := EMPTY] else r == -1 && t' == t
    case ReadCall(fd, nbytes, other) =>
      if !(0 <= fd < 8 && t[fd].on) then r == -1 && t' == t
      else if t[fd].jump == Some(Files) then
        && IsInt32(r) && IsInt32(nbytes) && r == FileAnswer(img, t[fd], nbytes)
        && Moved(t, t', fd, (t[fd].position + Unsigned(r)) % U32)
      else if t[fd].jump == Some(Directories) then
        r == |NameBytes(img, t[fd], nbytes)| && Moved(t, t', fd, NextEntry(img, t[fd]))
      else r == other && t' == t
  }

  /** One call, with its answer. */
  method PerformCall(d: Descriptors, call: Call, buf: array<byte>) returns (r: int)
    requires d.Valid() && (call.ReadCall? ==> IsInt32(call.nbytes)) && buf.Length == MAX_BLOCKS * BLOCK_SIZE
    modifies d`tables, buf
    ensures d.OnlyCallerStepped()
    ensures Answers(d.img, old(d.tables[d.current]), call, r, d.tables[d.current])
  {
    match call
    case OpenCall(fname) => r := PerformOpen(d, fname);
    case CloseCall(fd) => r := d.Close(fd);
    case ReadCall(fd, nbytes, other) => r := Read(d, fd, buf, 0, nbytes, other);
  }

  method PerformOpen(d: Descriptors, fname: seq<byte>) returns (r: int)
    requires d.Valid()
    modifies d`tables
    ensures d.OnlyCallerStepped() && Answers(d.img, old(d.tables[d.current]), OpenCall(fname), r, d.tables[d.current])
  {
    ghost var k;
    ghost var query := Queried(fname, NAME_SIZE);
    forall j: nat
      ensures FirstNamed(d.img, query, j) <==> j == Lookup(d.img, query, 0) && j < MAX_ENTRIES
    {
      LookupIsFirst(d.img, query, j);
    }
    ghost var first := Lookup(d.img, query, 0);
    assert first < MAX_ENTRIES ==> FirstNamed(d.img, query, first);
    r, k := d.Open(fname);
  }

  /** Over every run of calls by a process each call answers as it should in the table the calls before it have left, the
      table stays sane, and no other process's table changes. What is read goes to a buffer that holds any file. */
  method PerformCalls(d: Descriptors, calls: seq<Call>) returns (rs: seq<int>, ghost run: seq<Table>)
    requires d.Valid() && forall i | 0 <= i < |calls| :: calls[i].ReadCall? ==> IsInt32(calls[i].nbytes)
    modifies d`tables
    ensures d.Valid() && d.current == old(d.current) && Sane(d.tables[d.current])
    ensures forall p | 0 <= p < MAX_PROCESSES && p != d.current :: d.tables[p] == old(d.tables)[p]
    ensures |rs| == |calls| == |run| - 1 && run[0] == old(d.tables[d.current]) && run[|calls|] == d.tables[d.current]
    ensures forall i | 0 <= i < |calls| :: |run[i]| == 8 && Answers(d.img, run[i], calls[i], rs[i], run[i + 1])
  {
    var buf := new byte[MAX_BLOCKS * BLOCK_SIZE];
    rs, run := [], [d.tables[d.current]];
    for n := 0 to |calls|
      invariant d.Valid() && d.current == old(d.current)
      invariant forall p | 0 <= p < MAX_PROCESSES && p != d.current :: d.tables[p] == old(d.tables)[p]
      invariant |rs| == n == |run| - 1 && run[0] == old(d.tables[d.current]) && run[n] == d.tables[d.current]
      invariant forall i | 0 <= i < n :: |run[i]| == 8 && Answers(d.img, run[i], calls[i], rs[i], run[i + 1])
    {
      var r := PerformCall(d, calls[n], buf);
      rs, run := rs + [r], run + [d.tables[d.current]];
    }
  }

  /** A word stored in an `int32_t` field. */
  function SignedWord(w: word): (i: int)
    ensures IsInt32(i) && Unsigned(i) == w
  {
    if w < 0x8000_0000 then w else w - U32
  }

  // ---------------------------------------------------------------------
  // Reading a whole file
  // ---------------------------------------------------------------------

  /** The part of a file before the first block that `read_data` refuses. */
  ghost function SoundPart(f: File): (part: seq<byte>)
    requires FileLaidOut(f)
    ensures |part| <= f.node.fileSize
  {
    Slice(f, 0, Reach(f, 0, f.node.fileSize))
  }

  lemma SoundWhenReadable(f: File)
    requires FileLaidOut(f)
    ensures Readable(f) <==> |SoundPart(f)| == f.node.fileSize
    ensures Readable(f) ==> SoundPart(f) == Contents(f)
  {
    ReachStopsAtBadBlock(f, 0, f.node.fileSize);
    if |SoundPart(f)| == f.node.fileSize {
      forall k: nat | k * BLOCK_SIZE < f.node.fileSize
        ensures GoodBlock(f, k)
      {
        assert k * BLOCK_SIZE / BLOCK_SIZE == k;
      }
    }
  }

  /** The first refused block comes before the end of the file, and something is asked of it. */
  ghost predicate AtDamage(f: File, pos: nat, n: nat, part: seq<byte>) {
    pos == |part| < f.node.fileSize && n > 0
  }

  ghost function Flatten(outs: seq<seq<byte>>): (r: seq<byte>) {
    if outs == [] then [] else Flatten(outs[..|outs| - 1]) + outs[|outs| - 1]
  }

  /** One `file_read` of `n` bytes takes the position from `pos` to `pos'` and delivers `out`. */
  ghost predicate OneRead(f: File, pos: word, n: count, out: seq<byte>, pos': word)
    requires FileLaidOut(f)
  {
    out == Delivered(f, pos, n) && pos' == (pos + Unsigned(Verdict(f, pos, n))) % U32
  }

  /** Successive reads of sizes `chunks`: the positions they pass through and what each delivers. */
  ghost predicate ReadRun(f: File, positions: seq<word>, chunks: seq<count>, outs: seq<seq<byte>>)
    requires FileLaidOut(f)
  {
    && |chunks| == |outs| == |positions| - 1
    && forall i | 0 <= i < |outs| :: OneRead(f, positions[i], chunks[i], outs[i], positions[i + 1])
  }

  lemma SoundSlice(f: File, part: seq<byte>, a: nat, b: nat)
    requires FileLaidOut(f) && part == SoundPart(f) && a <= b <= |part|
    ensures Slice(f, a, b) == part[a..b]
  {
    SliceJoins(f, 0, a, b);
    SliceJoins(f, 0, b, |part|);
  }

  lemma SoundReach(f: File, pos: nat, n: nat, sound: nat)
    requires sound == Reach(f, 0, f.node.fileSize) && pos <= sound
    ensures Reach(f, pos, ReadEnd(f, pos, n)) == Min(pos + n, sound)
  {
    ReachLater(f, 0, pos, f.node.fileSize);
    ReachCut(f, pos, ReadEnd(f, pos, n), f.node.fileSize);
  }

  lemma SoundDelivered(f: File, pos: word, n: count, part: seq<byte>, next: nat)
    requires FileLaidOut(f) && part == SoundPart(f) && pos <= |part| && !AtDamage(f, pos, n, part)
    requires next == Min(pos + n, |part|)
    ensures Delivered(f, pos, n) == part[pos..next] && Verdict(f, pos, n) == next - pos
  {
    SoundSlice(f, part, pos, next);
    if pos < f.node.fileSize && n > 0 {
      SoundReach(f, pos, n, |part|);
    }
  }

  /** One `file_read` inside the sound part of a file: it delivers up to `next` and leaves the position there. */
  lemma ReadAdvances(f: File, pos: word, n: count, part: seq<byte>, next: nat)
    requires FileLaidOut(f) && part == SoundPart(f) && pos <= |part| && !AtDamage(f, pos, n, part)
    requires next == Min(pos + n, |part|)
    ensures Delivered(f, pos, n) == part[pos..next]
    ensures Verdict(f, pos, n) == next - pos
    ensures (pos + Unsigned(Verdict(f, pos, n))) % U32 == next
  {
    SoundDelivered(f, pos, n, part, next);
    Advanced(pos, next - pos, next - pos);
  }

  /** ... and at the end of the sound part it fails. */
  lemma ReadFailsAtDamage(f: File, pos: word, n: count, part: seq<byte>)
    requires FileLaidOut(f) && part == SoundPart(f) && pos <= |part| && AtDamage(f, pos, n, part)
    ensures Delivered(f, pos, n) == [] && Verdict(f, pos, n) == -1
  {
    ReachStopsAtBadBlock(f, 0, f.node.fileSize);
  }

  ghost predicate IsSlice(file: seq<byte>, s: seq<byte>, from: nat, to: nat) {
    from <= to <= |file| && s == file[from..to]
  }

  /** On a readable file every read of a run delivers the slice between the positions around it. */
  lemma {:induction false} ReadsAreSlices(f: File, ps: seq<word>, chunks: seq<count>, outs: seq<seq<byte>>,
                                          file: seq<byte>, n: nat)
    requires Readable(f) && file == Contents(f) && ReadRun(f, ps, chunks, outs) && ps[0] <= |file| && n <= |outs|
    ensures ps[n] <= |file|
    ensures forall i | 0 <= i < n :: IsSlice(file, outs[i], ps[i], ps[i + 1])
  {
    if n > 0 {
      ReadsAreSlices(f, ps, chunks, outs, file, n - 1);
      assert OneRead(f, ps[n - 1], chunks[n - 1], outs[n - 1], ps[n - 1 + 1]);
      SoundWhenReadable(f);
      ReadAdvances(f, ps[n - 1], chunks[n - 1], file, Min(ps[n - 1] + chunks[n - 1], |file|));
    }
  }

  lemma {:induction false} AdjacentSlicesJoin(file: seq<byte>, ps: seq<word>, outs: seq<seq<byte>>, n: nat)
    requires n <= |outs| == |ps| - 1 && ps[0] <= |file|
    requires forall i | 0 <= i < |outs| :: IsSlice(file, outs[i], ps[i], ps[i + 1])
    ensures ps[0] <= ps[n] <= |file| && Flatten(outs[..n]) == file[ps[0]..ps[n]]
  {
    if n > 0 {
      AdjacentSlicesJoin(file, ps, outs, n - 1);
      assert IsSlice(file, outs[n - 1], ps[n - 1], ps[n - 1 + 1]);
      assert outs[..n][..n - 1] == outs[..n - 1];
    }
  }

  /** For any chunk sizes, the concatenated reads are the file from the first position up to the last,
      which never passes the end. */
  lemma ChunksAreContents(f: File, ps: seq<word>, chunks: seq<count>, outs: seq<seq<byte>>, file: seq<byte>)
    requires Readable(f) && file == Contents(f) && ReadRun(f, ps, chunks, outs) && ps[0] <= |file|
    ensures var end := ps[|outs|];
            ps[0] <= end <= |file| && Flatten(outs) == file[ps[0]..end]
  {
    ReadsAreSlices(f, ps, chunks, outs, file, |outs|);
    AdjacentSlicesJoin(file, ps, outs, |outs|);
    assert outs[..|outs|] == outs;
  }

  /** A `read`, in terms of the sound part of the file alone. */
  method ReadNext(d: Descriptors, fd: int, ghost f: File, ghost part: seq<byte>, buf: array<byte>, at: nat, n: count)
    returns (cnt: int)
    requires d.Valid() && d.Opens(fd, f) && FileLaidOut(f) && part == SoundPart(f)
    requires d.tables[d.current][fd].position <= |part| && at + n <= buf.Length
    modifies d`tables, buf
    ensures d.Valid() && d.current == old(d.current) && d.Opens(fd, f) && d.Others(fd) == old(d.Others(fd))
    ensures var pos, next := old(d.tables[d.current][fd].position), d.tables[d.current][fd].position;
            if AtDamage(f, pos, n, part) then
              cnt == -1 && buf[..] == old(buf[..])
            else
              && next == Min(pos + n, |part|)
              && cnt == next - pos
              && buf[..] == Spliced(old(buf[..]), at, part[pos..next])
  {
    ghost var pos := d.tables[d.current][fd].position;
    ghost var next := Min(pos + n, |part|);
    assert Unsigned(n) == n && |Delivered(f, pos, n)| <= n;
    if AtDamage(f, pos, n, part) {
      ReadFailsAtDamage(f, pos, n, part);
      NothingSpliced(buf[..], at);
    } else {
      ReadAdvances(f, pos, n, part, next);
    }
    cnt := Read(d, fd, buf, at, n, 0);
  }

  /** The loop of ece391cat.c: reads until zero or a failure, and by then has written the whole file, or all of it
      before the first refused block. */
  method Cat(d: Descriptors, fd: int, ghost f: File, ghost part: seq<byte>) returns (r: int, out: seq<byte>)
    requires d.Valid() && d.Opens(fd, f) && FileLaidOut(f) && part == SoundPart(f)
    requires d.tables[d.current][fd].position == 0
    modifies d`tables
    ensures d.Valid()
    ensures out == part && (r == 0 || r == 3)
    ensures r == 0 <==> Readable(f)
    ensures r == 0 ==> out == Contents(f)
  {
    SoundWhenReadable(f);
    var buf := new byte[1024];
    out := [];
    var cnt := 1;
    while cnt != 0
      invariant d.Valid() && d.current == old(d.current) && d.Opens(fd, f)
      invariant d.tables[d.current][fd].position == |out| <= |part|
      invariant out == part[..|out|]
      invariant cnt == 0 ==> |out| == |part| == f.node.fileSize
      decreases |part| - |out|, cnt
    {
      cnt := ReadNext(d, fd, f, part, buf, 0, 1024);
      if cnt == -1 {
        return 3, out;
      }
      out := out + buf[..cnt];
    }
    return 0, out;
  }

  /** How many names a listing shows: an empty name ends it, like the end of the directory. */
  ghost function ListedCount(img: Image, from: nat): (k: nat)
    requires LaidOut(img) && from <= img.numEntries <= MAX_ENTRIES
    ensures from <= k <= img.numEntries
    ensures forall j | from <= j < k :: NameOf(img, j) != []
    ensures k < img.numEntries ==> NameOf(img, k) == []
    decreases img.numEntries - from
  {
    if from == img.numEntries || NameOf(img, from) == [] then from else ListedCount(img, from + 1)
  }

  /** The loop of ece391ls.c: the names of the directory in order, up to an empty one. In an unambiguous directory these
      are all of them, and each looks up its own entry. */
  method ListDirectory(d: Descriptors, fd: int) returns (names: seq<seq<byte>>)
    requires d.Valid()
    requires 0 <= fd < MAX_OPEN_FILES && d.tables[d.current][fd].jump == Some(Directories)
    requires d.tables[d.current][fd].position == 0
    modifies d`tables
    ensures |names| == ListedCount(d.img, 0)
    ensures forall k: nat | k < |names| :: names[k] == NameOf(d.img, k)
    ensures Unambiguous(d.img) ==>
              && |names| == d.img.numEntries
              && forall k: nat | k < |names| :: FirstNamed(d.img, Queried(names[k], NAME_SIZE), k)
  {
    var buf := new byte[33];
    names := [];
    var cnt := 1;
    ghost var total := ListedCount(d.img, 0);
    while cnt != 0
      invariant d.Valid() && d.current == old(d.current) && d.tables[d.current][fd].jump == Some(Directories)
      invariant |names| <= total && (cnt != 0 ==> d.tables[d.current][fd].position == |names|)
      invariant forall k: nat | k < |names| :: names[k] == NameOf(d.img, k)
      invariant cnt == 0 ==> |names| == total
      decreases total - |names|, cnt
    {
      var r := Read(d, fd, buf, 0, 32, 0);
      cnt := r;
      if cnt != 0 {
        names := names + [buf[..cnt]];
      }
    }
    if Unambiguous(d.img) {
      forall k: nat | k < |names|
        ensures FirstNamed(d.img, Queried(names[k], NAME_SIZE), k)
      {
        ListedNameLooksUpItself(d.img, k);
      }
    }
  }

  // ---------------------------------------------------------------------
  // Failed reads and the position
  // ---------------------------------------------------------------------

  /** A read fails: there is something to read at the position, its block is refused, and the read gets as far as
      looking at that block, which it does unless the end wraps around to an earlier one. */
  ghost predicate Fails(f: File, pos: word, n: word) {
    && pos < f.node.fileSize && n > 0 && !GoodBlock(f, pos / BLOCK_SIZE)
    && (Wraps(pos, n) ==> (pos + n - U32) / BLOCK_SIZE == pos / BLOCK_SIZE)
  }

  lemma VerdictIsCount(f: File, pos: word, n: word)
    requires FileLaidOut(f)
    ensures Verdict(f, pos, n) == -1 <==> Fails(f, pos, n)
    ensures Verdict(f, pos, n) == if Fails(f, pos, n) then -1 else |Delivered(f, pos, n)|
    ensures |Delivered(f, pos, n)| > 0 ==> pos + |Delivered(f, pos, n)| <= f.node.fileSize
    ensures Fails(f, pos, n) ==> Delivered(f, pos, n) == []
  {
    if pos < f.node.fileSize && n > 0 && !Wraps(pos, n) {
      ReachStopsAtBadBlock(f, pos, ReadEnd(f, pos, n));
    }
  }

  lemma Advanced(pos: word, r: int, len: nat)
    requires IsInt32(r) && pos + len < U32 && (r == len || (r == -1 && len == 0))
    ensures (pos + Unsigned(r)) % U32 == pos + len <==> r != -1
  {
  }

  /** The position moves by the number of bytes delivered exactly when the read does not fail. */
  lemma PositionFollowsIff(f: File, pos: word, n: word)
    requires FileLaidOut(f)
    ensures IsInt32(Verdict(f, pos, n))
    ensures Verdict(f, pos, n) == -1 <==> Fails(f, pos, n)
    ensures (pos + Unsigned(Verdict(f, pos, n))) % U32 == pos + |Delivered(f, pos, n)| <==> !Fails(f, pos, n)
  {
    VerdictIsCount(f, pos, n);
    Advanced(pos, Verdict(f, pos, n), |Delivered(f, pos, n)|);
  }

  /** What follows a failure at the start of a block: the position is one back, and the next read delivers the last byte
      of the block before once more. */
  lemma ReadAgainAfterFailure(f: File, k: nat, pos: word, n: count)
    requires FileLaidOut(f) && k > 0 && pos == k * BLOCK_SIZE < f.node.fileSize && n > 0
    requires GoodBlock(f, k - 1) && !GoodBlock(f, k)
    ensures Verdict(f, pos, n) == -1 && (pos + Unsigned(-1)) % U32 == pos - 1
    ensures Delivered(f, pos - 1, n) == [FileByte(f, pos - 1)] && Verdict(f, pos - 1, n) == 1
  {
    assert pos / BLOCK_SIZE == k && (pos - 1) / BLOCK_SIZE == k - 1;
    PositionFollowsIff(f, pos, n);
    var end := ReadEnd(f, pos - 1, n);
    ReachStopsAtBadBlock(f, pos - 1, end);
    assert Reach(f, pos - 1, end) == pos;
    SliceAt(f, pos - 1, pos, pos - 1);
  }
}
