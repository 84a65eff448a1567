/** The whole of syscalls/ece391grep.c: the search of every file of the directory, in listing order. */
module GrepProgram {
  import opened Bytes
  import opened Filesystem
  import opened Directory
  import opened Descriptors
  import opened Grep

  const DOT: byte := 46
  const DIRECTORY_FAILED: text :=
    [100, 105, 114, 101, 99, 116, 111, 114, 121, 32, 111, 112, 101, 110, 32, 102, 97, 105, 108, 101, 100, 10]

  /** The messages of the program. */
  lemma Messages()
    ensures |OPEN_FAILED| == |READ_FAILED| == 17 && |DIRECTORY_FAILED| == 22
    ensures forall i | 0 <= i < 17 :: OPEN_FAILED[i] == "file open failed\n"[i] as int
    ensures forall i | 0 <= i < 17 :: READ_FAILED[i] == "file read failed\n"[i] as int
    ensures forall i | 0 <= i < 22 :: DIRECTORY_FAILED[i] == "directory open failed\n"[i] as int
  {
  }

  // ---------------------------------------------------------------------
  // What should be printed
  // ---------------------------------------------------------------------

  /** A name that starts with a dot is passed over. */
  ghost predicate Skipped(img: Image, k: nat)
    requires LaidOut(img) && k < MAX_ENTRIES
  {
    NameOf(img, k) != [] && NameOf(img, k)[0] == DOT
  }

  /** The entry that opening listed name `k` finds, 63 if there is none; it is entry `k` in an unambiguous directory. */
  ghost function Target(img: Image, k: nat): (j: nat)
    requires LaidOut(img) && k < MAX_ENTRIES
    ensures j <= MAX_ENTRIES
  {
    Lookup(img, Queried(NameOf(img, k), NAME_SIZE), 0)
  }

  ghost predicate Leads(img: Image, k: nat)
    requires LaidOut(img) && k < MAX_ENTRIES
  {
    Queried(NameOf(img, k), NAME_SIZE) != [] && Target(img, k) < MAX_ENTRIES
  }

  ghost function SourceAt(img: Image, k: nat): (f: Source)
    requires LaidOut(img) && k < MAX_ENTRIES && Leads(img, k)
    ensures SourceLaidOut(f)
  {
    SourceOf(img, img.entries[Target(img, k)])
  }

  /** The entry is passed over, or can be opened and read to its end. */
  ghost predicate Fine(img: Image, k: nat)
    requires LaidOut(img) && k < MAX_ENTRIES
  {
    Skipped(img, k) || (Leads(img, k) && Whole(SourceAt(img, k)))
  }

  /** The lines of entry `k` that contain the pattern, as they are printed. */
  ghost function Owed(img: Image, s: text, k: nat): (out: text)
    requires LaidOut(img) && k < MAX_ENTRIES
  {
    if Skipped(img, k) || !Leads(img, k) then []
    else Render(NameOf(img, k), Matching(s, Lines(PartOf(SourceAt(img, k)))))
  }

  ghost function OwedUpTo(img: Image, s: text, n: nat): (out: text)
    requires LaidOut(img) && n <= MAX_ENTRIES
  {
    if n == 0 then [] else OwedUpTo(img, s, n - 1) + Owed(img, s, n - 1)
  }

  /** The conditions of `PrintsMatchingLinesIff` for entry `k`. */
  ghost predicate Right(img: Image, s: text, edge: bool, k: nat)
    requires LaidOut(img) && k < MAX_ENTRIES
  {
    Skipped(img, k) || !Leads(img, k) ||
    var t := PartOf(SourceAt(img, k)); PrintedRight(s, Lines(t)) && (edge ==> Harmless(s, t))
  }

  /** In an unambiguous directory every listed name leads to its own entry. */
  lemma LeadsToItself(img: Image, k: nat)
    requires Unambiguous(img) && k < img.numEntries
    ensures Leads(img, k) && Target(img, k) == k
  {
    ListedNameLooksUpItself(img, k);
    LookupIsFirst(img, Queried(NameOf(img, k), NAME_SIZE), k);
  }

  /** In an unambiguous directory a listed name owes nothing if its first byte is 46, and otherwise, for a regular file all
      of whose blocks are accepted, the lines of that file that contain the pattern, each behind the name and a colon. */
  lemma OwedIs(img: Image, s: text, k: nat)
    requires Unambiguous(img) && k < img.numEntries
    ensures NameOf(img, k)[0] == 46 ==> Owed(img, s, k) == []
    ensures var e := img.entries[k];
            NameOf(img, k)[0] != 46 && e.fileType >= 2 && e.inode < |img.inodes| && Readable(FileOf(img, e.inode)) ==>
              Owed(img, s, k) == Render(NameOf(img, k), Matching(s, Lines(Contents(FileOf(img, e.inode)))))
  {
    LeadsToItself(img, k);
    var e := img.entries[k];
    if e.fileType >= 2 && e.inode < |img.inodes| && Readable(FileOf(img, e.inode)) {
      WholePart(img, e);
    }
  }

  lemma WholePart(img: Image, e: Dentry)
    requires LaidOut(img) && e.fileType >= 2 && e.inode < |img.inodes| && Readable(FileOf(img, e.inode))
    ensures PartOf(SourceOf(img, e)) == Contents(FileOf(img, e.inode))
  {
    SoundWhenReadable(FileOf(img, e.inode));
  }

  // ---------------------------------------------------------------------
  // The program
  // ---------------------------------------------------------------------

  /** `do_one_file` on listed name `k`. */
  method OneEntry(d: Descriptors, s: text, name: text, data: array<byte>, ghost k: nat) returns (r: int, out: text)
    requires d.Valid() && k < MAX_ENTRIES && name == NameOf(d.img, k) && !Skipped(d.img, k) && Searchable(d.img, name)
    requires NUL !in s && data.Length == WINDOW + 1
    modifies d`tables, data
    ensures d.Valid() && d.current == old(d.current) && (Edge(data) ==> old(Edge(data)))
    ensures r == 0 <==> Fine(d.img, k) && !Full(old(d.tables[d.current]))
    ensures r == 0 ==> d.tables == old(d.tables)
    ensures r == 0 && Right(d.img, s, old(Edge(data)), k) ==> out == Owed(d.img, s, k)
  {
    ghost var query, edge := Queried(name, NAME_SIZE), Edge(data);
    ghost var j, fd, printed, unfinished;
    LookupIsFirst(d.img, query, Target(d.img, k));
    r, out, j, fd, printed, unfinished := DoOneFile(d, s, name, data);
    LookupIsFirst(d.img, query, j);
  }

  /** Descriptor `fd` of the caller lists the directory and stands at entry `n`; the other descriptors are as in `others`. */
  ghost predicate Listing(d: Descriptors, fd: int, n: nat, others: seq<Table>)
    reads d
  {
    && d.Valid() && FIRST_VALID_INDEX <= fd < MAX_OPEN_FILES && d.Others(fd) == others
    && d.tables[d.current][fd].jump == Some(Directories) && d.tables[d.current][fd].position == n
  }

  /** No descriptor but `fd` is free. */
  ghost predicate NoRoom(others: seq<Table>, pid: nat, fd: int) {
    && pid < |others| == MAX_PROCESSES && |others[pid]| == MAX_OPEN_FILES
    && forall i | FIRST_VALID_INDEX <= i < MAX_OPEN_FILES && i != fd :: others[pid][i].on
  }

  lemma FullIsNoRoom(d: Descriptors, fd: int, n: nat, others: seq<Table>)
    requires Listing(d, fd, n, others)
    ensures Full(d.tables[d.current]) <==> NoRoom(others, d.current, fd)
  {
    assert forall i | FIRST_VALID_INDEX <= i < MAX_OPEN_FILES && i != fd :: others[d.current][i] == d.tables[d.current][i];
  }

  /** One more name, or the end of the listing. */
  method NextName(d: Descriptors, fd: int, buf: array<byte>, ghost n: nat, ghost others: seq<Table>)
    returns (cnt: nat, name: text)
    requires Listing(d, fd, n, others) && buf.Length == 33
    modifies d`tables, buf
    ensures d.current == old(d.current)
    ensures cnt == 0 <==> n >= d.img.numEntries || NameOf(d.img, n) == []
    ensures cnt != 0 ==> n < MAX_ENTRIES && name == NameOf(d.img, n) && Listing(d, fd, n + 1, others)
  {
    var r := Read(d, fd, buf, 0, 32, 0);
    cnt := r;
    name := buf[..cnt];
  }

  /** The first `n` listed names all meet them. */
  ghost predicate AllRight(img: Image, s: text, edge: bool, n: nat)
    requires LaidOut(img) && n <= MAX_ENTRIES
  {
    n == 0 || (AllRight(img, s, edge, n - 1) && Right(img, s, edge, n - 1))
  }

  lemma RightWithout(img: Image, s: text, edge: bool, now: bool, k: nat)
    requires LaidOut(img) && k < MAX_ENTRIES && (now ==> edge)
    ensures Right(img, s, edge, k) ==> Right(img, s, now, k)
  {
  }

  /** Where the loop stops with an error, if it does. */
  ghost predicate Stops(img: Image, k: nat, noRoom: bool)
    requires LaidOut(img) && k < MAX_ENTRIES
  {
    !Skipped(img, k) && (noRoom || !Fine(img, k))
  }

  ghost predicate NoneStops(img: Image, n: nat, noRoom: bool)
    requires LaidOut(img) && n <= MAX_ENTRIES
  {
    n == 0 || (NoneStops(img, n - 1, noRoom) && !Stops(img, n - 1, noRoom))
  }

  lemma {:induction false} OneStops(img: Image, k: nat, n: nat, noRoom: bool)
    requires LaidOut(img) && k < n <= MAX_ENTRIES && Stops(img, k, noRoom)
    ensures !NoneStops(img, n, noRoom)
  {
    if k < n - 1 {
      OneStops(img, k, n - 1, noRoom);
    }
  }

  /** What has gone well, and what has been printed, when the first `n` names are done. */
  ghost predicate DoneSoFar(img: Image, s: text, edge: bool, n: nat, noRoom: bool, out: text)
    requires LaidOut(img) && n <= MAX_ENTRIES
  {
    NoneStops(img, n, noRoom) && (AllRight(img, s, edge, n) ==> out == OwedUpTo(img, s, n))
  }

  lemma OneMoreDone(img: Image, s: text, edge: bool, n: nat, noRoom: bool, out: text, shown: text)
    requires LaidOut(img) && n < MAX_ENTRIES
    requires DoneSoFar(img, s, edge, n, noRoom, out) && !Stops(img, n, noRoom)
    requires Right(img, s, edge, n) ==> shown == Owed(img, s, n)
    ensures DoneSoFar(img, s, edge, n + 1, noRoom, out + shown)
  {
  }

  /** What the loop does with a name. */
  method DoEntry(d: Descriptors, fd: int, s: text, name: text, data: array<byte>,
                 ghost k: nat, ghost others: seq<Table>, ghost noRoom: bool, ghost edge: bool)
    returns (status: int, shown: text)
    requires Listing(d, fd, k + 1, others) && noRoom == NoRoom(others, d.current, fd)
    requires k < MAX_ENTRIES && name == NameOf(d.img, k) && name != [] && (!Skipped(d.img, k) ==> Searchable(d.img, name))
    requires NUL !in s && data.Length == WINDOW + 1 && (Edge(data) ==> edge)
    modifies d`tables, data
    ensures d.current == old(d.current) && (Edge(data) ==> edge)
    ensures status == 0 <==> !Stops(d.img, k, noRoom)
    ensures status == 0 ==> Listing(d, fd, k + 1, others) && (Right(d.img, s, edge, k) ==> shown == Owed(d.img, s, k))
  {
    status, shown := 0, [];
    if name[0] != DOT {
      FullIsNoRoom(d, fd, k + 1, others);
      RightWithout(d.img, s, edge, Edge(data), k);
      status, shown := OneEntry(d, s, name, data, k);
    }
  }

  /** All listed names that are not passed over can be searched. */
  ghost predicate AllSearchable(img: Image, total: nat)
    requires LaidOut(img) && total <= MAX_ENTRIES
  {
    forall k: nat | k < total && !Skipped(img, k) :: Searchable(img, NameOf(img, k))
  }

  /** One turn of the loop, with `n` of `total` names done. */
  method NextEntry(d: Descriptors, fd: int, s: text, buf: array<byte>, data: array<byte>, out0: text,
                   ghost n: nat, ghost total: nat, ghost others: seq<Table>, ghost noRoom: bool, ghost edge: bool)
    returns (cnt: nat, status: int, out: text)
    requires Listing(d, fd, n, others) && noRoom == NoRoom(others, d.current, fd) && buf.Length == 33 && buf != data
    requires n <= total == ListedCount(d.img, 0) && AllSearchable(d.img, total)
    requires NUL !in s && data.Length == WINDOW + 1 && (Edge(data) ==> edge)
    requires DoneSoFar(d.img, s, edge, n, noRoom, out0)
    modifies d`tables, data, buf
    ensures d.current == old(d.current) && (Edge(data) ==> edge)
    ensures cnt == 0 ==> n == total && out == out0 && status == 0
    ensures cnt != 0 ==> n < total
    ensures cnt != 0 && status == 0 ==> Listing(d, fd, n + 1, others) && DoneSoFar(d.img, s, edge, n + 1, noRoom, out)
    ensures status != 0 ==> !NoneStops(d.img, total, noRoom)
  {
    var name;
    cnt, name := NextName(d, fd, buf, n, others);
    status, out := 0, out0;
    if cnt != 0 {
      var shown;
      status, shown := DoEntry(d, fd, s, name, data, n, others, noRoom, edge);
      out := out0 + shown;
      if status == 0 {
        OneMoreDone(d.img, s, edge, n, noRoom, out0, shown);
      } else {
        OneStops(d.img, n, total, noRoom);
      }
    }
  }

  /** The loop over the directory; `data` is the memory that the window of `do_one_file` occupies at every call. */
  method SearchAll(d: Descriptors, fd: int, s: text, data: array<byte>,
                   ghost total: nat, ghost others: seq<Table>, ghost noRoom: bool)
    returns (r: int, out: text)
    requires Listing(d, fd, 0, others) && noRoom == NoRoom(others, d.current, fd)
    requires total == ListedCount(d.img, 0) && AllSearchable(d.img, total)
    requires NUL !in s && data.Length == WINDOW + 1
    modifies d`tables, data
    ensures r == 0 || r == 3
    ensures r == 0 <==> NoneStops(d.img, total, noRoom)
    ensures r == 0 && AllRight(d.img, s, old(Edge(data)), total) ==> out == OwedUpTo(d.img, s, total)
  {
    var buf := new byte[33];
    out := [];
    var cnt: nat := 1;
    ghost var n, edge := 0, Edge(data);
    while cnt != 0
      invariant d.current == old(d.current) && n <= total && (Edge(data) ==> edge)
      invariant cnt != 0 ==> Listing(d, fd, n, others)
      invariant DoneSoFar(d.img, s, edge, n, noRoom, out)
      invariant cnt == 0 ==> n == total
      decreases total - n, cnt
    {
      var status;
      cnt, status, out := NextEntry(d, fd, s, buf, data, out, n, total, others, noRoom, edge);
      if status != 0 {
        return 3, out;
      }
      if cnt != 0 {
        n := n + 1;
      }
    }
    return 0, out;
  }

  /** Two descriptors are free. */
  ghost predicate TwoFree(t: Table)
    requires |t| == MAX_OPEN_FILES
  {
    exists i, j | FIRST_VALID_INDEX <= i < j < MAX_OPEN_FILES :: !t[i].on && !t[j].on
  }

  lemma TwoFreeIff(tables: seq<Table>, pid: nat, fd: int, others: seq<Table>)
    requires |tables| == MAX_PROCESSES && pid < MAX_PROCESSES && |tables[pid]| == MAX_OPEN_FILES
    requires LowestFree(tables[pid], fd) && others == tables
    ensures NoRoom(others, pid, fd) <==> !TwoFree(tables[pid])
  {
    var t := tables[pid];
    if i :| FIRST_VALID_INDEX <= i < MAX_OPEN_FILES && i != fd && !t[i].on {
      assert others[pid][i] == t[i] && fd < i && !t[fd].on;
    }
  }

  /** The program, given its pattern. It succeeds exactly when there is a directory to open and no listed name stops it:
      each that does not start with a dot finds a second free descriptor, an entry, and blocks that can all be read. Then,
      if every file meets the conditions of `PrintsMatchingLinesIff`, the output is the lines that contain the pattern of
      every file, in listing order. */
  method GrepDirectory(d: Descriptors, s: text, data: array<byte>) returns (r: int, out: text)
    requires d.Valid() && NUL !in s && data.Length == WINDOW + 1
    requires forall j: nat | FirstNamed(d.img, [DOT], j) :: d.img.entries[j].fileType == 1
    requires AllSearchable(d.img, ListedCount(d.img, 0))
    modifies d`tables, data
    ensures r == 0 || r == 2 || r == 3
    ensures r == 2 <==> Lookup(d.img, [DOT], 0) == MAX_ENTRIES || Full(old(d.tables[d.current]))
    ensures r == 2 ==> out == DIRECTORY_FAILED && d.tables == old(d.tables)
    ensures r == 0 <==>
            r != 2 && NoneStops(d.img, ListedCount(d.img, 0), !TwoFree(old(d.tables[d.current])))
    ensures r == 0 && AllRight(d.img, s, old(Edge(data)), ListedCount(d.img, 0)) ==>
              out == OwedUpTo(d.img, s, ListedCount(d.img, 0))
  {
    ghost var k;
    var fd;
    QueryIsWholeName([DOT], NAME_SIZE);
    LookupIsFirst(d.img, [DOT], Lookup(d.img, [DOT], 0));
    fd, k := d.Open([DOT]);
    if fd == -1 {
      forall j: nat
        ensures FirstNamed(d.img, [DOT], j) ==> j == Lookup(d.img, [DOT], 0)
      {
        LookupIsFirst(d.img, [DOT], j);
      }
      return 2, DIRECTORY_FAILED;
    }
    LookupIsFirst(d.img, [DOT], k);
    ghost var others := d.Others(fd);
    BlankAgain(old(d.tables), d.current, fd, Descriptors.OpenedAs(d.img.entries[k]));
    TwoFreeIff(old(d.tables), d.current, fd, others);
    r, out := SearchAll(d, fd, s, data, ListedCount(d.img, 0), others, NoRoom(others, d.current, fd));
  }
}
