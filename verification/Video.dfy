/** One video page, three backup pages and a page table that is remapped at every terminal switch
    (student-distrib/terminal.c and paging.c), proved to give every terminal a screen of its own. */
module Video {
  import opened Bytes

  const PAGE := 0x1000
  const VIDEO := 0xB8000
  const BACKUP_VID1 := 0xB9000
  const VIRT_VID_TERM1 := 0x1000_0000
  const USER_MASK := 7
  const PROGRAM_PAGE := 0x0800_0000

  type Screen = seq<byte>

  // ---------------------------------------------------------------------
  // Terminals with screens of their own
  // ---------------------------------------------------------------------

  /** `granted[t]`: user programs of terminal `t` may write to its screen. */
  datatype Terminals = Terminals(cur: nat, screens: seq<Screen>, granted: seq<bool>)

  /** A kernel write to the screen, a user write to one of the pages from 256 MB on, `vidmap`, a switch. */
  datatype Event = Put(offset: nat, b: byte) | Poke(page: nat, offset: nat, b: byte) | Vidmap | Switch(terminal: nat)

  ghost predicate Inv(s: Terminals) {
    && s.cur < MAX_TERMINAL && |s.screens| == |s.granted| == MAX_TERMINAL
    && forall t | 0 <= t < MAX_TERMINAL :: |s.screens[t]| == PAGE
  }

  function With(screen: Screen, offset: nat, b: byte): (r: Screen)
    requires offset < |screen|
  {
    screen[offset := b]
  }

  /** The event writes to the screen of terminal `t`: the kernel to that of the current terminal, a program to that of any
      terminal whose page it may write. */
  ghost predicate WritesTo(s: Terminals, e: Event, t: nat)
    requires Inv(s)
  {
    match e
    case Put(o, _) => o < PAGE && t == s.cur
    case Poke(page, o, _) => o < PAGE && t == page && t < MAX_TERMINAL && s.granted[t]
    case Vidmap => false
    case Switch(_) => false
  }

  ghost function Addressee(s: Terminals, e: Event): (t: nat) {
    if e.Poke? then e.page else s.cur
  }

  ghost function Step(s: Terminals, e: Event): (s': Terminals)
    requires Inv(s)
    ensures Inv(s')
  {
    var t := Addressee(s, e);
    if WritesTo(s, e, t) then s.(screens := s.screens[t := With(s.screens[t], e.offset, e.b)])
    else
      match e
      case Put(_, _) => s
      case Poke(_, _, _) => s
      case Vidmap => s.(granted := s.granted[s.cur := true])
      case Switch(u) =>
        if u == s.cur || u >= MAX_TERMINAL then s
        else s.(cur := u, granted := s.granted[s.cur := true][u := true])
  }

  ghost function Run(s: Terminals, es: seq<Event>): (s': Terminals)
    requires Inv(s)
    ensures Inv(s')
    decreases |es|
  {
    if es == [] then s else Run(Step(s, es[0]), es[1..])
  }

  /** The writes of a run to the screen of terminal `t`; if `own`, only those made while it is the current one. */
  ghost function WritesOf(s: Terminals, es: seq<Event>, t: nat, own: bool): (ws: seq<(nat, byte)>)
    requires Inv(s)
    ensures forall w <- ws :: w.0 < PAGE
    decreases |es|
  {
    if es == [] then []
    else
      var rest := WritesOf(Step(s, es[0]), es[1..], t, own);
      if WritesTo(s, es[0], t) && (own ==> s.cur == t) then [(es[0].offset, es[0].b)] + rest else rest
  }

  ghost function Written(screen: Screen, ws: seq<(nat, byte)>): (r: Screen)
    requires |screen| == PAGE && forall w <- ws :: w.0 < PAGE
    ensures |r| == PAGE
    decreases |ws|
  {
    if ws == [] then screen else Written(With(screen, ws[0].0, ws[0].1), ws[1..])
  }

  /** For every interleaving, the screen of a terminal is what the writes addressed to it produce. */
  lemma {:induction false} ScreenIsWritesToIt(s: Terminals, es: seq<Event>, t: nat)
    requires Inv(s) && t < MAX_TERMINAL
    ensures Run(s, es).screens[t] == Written(s.screens[t], WritesOf(s, es, t, false))
    decreases |es|
  {
    if es != [] {
      var s' := Step(s, es[0]);
      ScreenIsWritesToIt(s', es[1..], t);
      if WritesTo(s, es[0], t) {
        assert WritesOf(s, es, t, false)[1..] == WritesOf(s', es[1..], t, false);
      }
    }
  }

  // What a run leaves at one place of a screen

  /** Event `k` of the run writes to offset `i` of the screen of terminal `t`. */
  ghost predicate WritesAt(s: Terminals, es: seq<Event>, k: nat, t: nat, i: nat)
    requires Inv(s) && k < |es|
  {
    WritesTo(Run(s, es[..k]), es[k], t) && es[k].offset == i
  }

  /** `b` is the byte of the last write to the place, or `initial` if there is none. */
  ghost predicate LastWritten(s: Terminals, es: seq<Event>, t: nat, i: nat, initial: byte, b: byte)
    requires Inv(s)
  {
    && ((forall k: nat | k < |es| :: !WritesAt(s, es, k, t, i)) ==> b == initial)
    && (forall k: nat | k < |es| && WritesAt(s, es, k, t, i) ::
          (forall j: nat | k < j < |es| :: !WritesAt(s, es, j, t, i)) ==> b == es[k].b)
  }

  lemma {:induction false} RunAppend(s: Terminals, es: seq<Event>, e: Event)
    requires Inv(s)
    ensures Run(s, es + [e]) == Step(Run(s, es), e)
    decreases |es|
  {
    if es == [] {
      assert es + [e] == [e] && [e][1..] == [];
      assert Run(Step(s, e), []) == Step(s, e);
    } else {
      assert (es + [e])[1..] == es[1..] + [e];
      RunAppend(Step(s, es[0]), es[1..], e);
    }
  }

  /** One event sets one byte of one screen, and leaves every other byte of every screen. */
  lemma StepSetsByte(s: Terminals, e: Event, t: nat, i: nat)
    requires Inv(s) && t < MAX_TERMINAL && i < PAGE
    ensures Step(s, e).screens[t][i] == if WritesTo(s, e, t) && e.offset == i then e.b else s.screens[t][i]
  {
  }

  lemma WritesAtFront(s: Terminals, front: seq<Event>, e: Event, t: nat, i: nat)
    requires Inv(s)
    ensures forall k: nat | k < |front| :: WritesAt(s, front + [e], k, t, i) <==> WritesAt(s, front, k, t, i)
    ensures WritesAt(s, front + [e], |front|, t, i) <==> WritesTo(Run(s, front), e, t) && e.offset == i
  {
    var es := front + [e];
    assert es[..|front|] == front;
    forall k: nat | k < |front|
      ensures WritesAt(s, es, k, t, i) <==> WritesAt(s, front, k, t, i)
    {
      assert es[..k] == front[..k];
    }
  }

  /** For every interleaving, each byte of a screen is that of the last write to it. */
  lemma {:induction false} ByteIsLastWritten(s: Terminals, es: seq<Event>, t: nat, i: nat)
    requires Inv(s) && t < MAX_TERMINAL && i < PAGE
    ensures LastWritten(s, es, t, i, s.screens[t][i], Run(s, es).screens[t][i])
    decreases |es|
  {
    if es != [] {
      var n := |es| - 1;
      var front, e := es[..n], es[n];
      assert es == front + [e];
      ByteIsLastWritten(s, front, t, i);
      RunAppend(s, front, e);
      WritesAtFront(s, front, e, t, i);
      StepSetsByte(Run(s, front), e, t, i);
      LastOne(s, front, e, t, i, s.screens[t][i], Run(s, front).screens[t][i], Run(s, es).screens[t][i]);
    }
  }

  lemma LastOne(s: Terminals, front: seq<Event>, e: Event, t: nat, i: nat, initial: byte, before: byte, b: byte)
    requires Inv(s) && LastWritten(s, front, t, i, initial, before)
    requires forall k: nat | k < |front| :: WritesAt(s, front + [e], k, t, i) <==> WritesAt(s, front, k, t, i)
    requires b == if WritesAt(s, front + [e], |front|, t, i) then e.b else before
    ensures LastWritten(s, front + [e], t, i, initial, b)
  {
    var es := front + [e];
    if !WritesAt(s, es, |front|, t, i) {
      forall k: nat | k < |es| && WritesAt(s, es, k, t, i) && (forall j: nat | k < j < |es| :: !WritesAt(s, es, j, t, i))
        ensures b == es[k].b
      {
        assert k < |front| && WritesAt(s, front, k, t, i);
        forall j: nat | k < j < |front|
          ensures !WritesAt(s, front, j, t, i)
        {
          assert !WritesAt(s, es, j, t, i);
        }
      }
      if forall k: nat | k < |es| :: !WritesAt(s, es, k, t, i) {
        forall k: nat | k < |front|
          ensures !WritesAt(s, front, k, t, i)
        {
          assert !WritesAt(s, es, k, t, i);
        }
      }
    }
  }

  /** An event changes the screen of a terminal in the background exactly when it is a user write to the page of that
      terminal, after programs were given that page, of a byte that differs. */
  lemma IntrusionIff(s: Terminals, e: Event, t: nat)
    requires Inv(s) && t < MAX_TERMINAL && t != s.cur
    ensures Step(s, e).screens[t] != s.screens[t] <==>
            e.Poke? && e.page == t && e.offset < PAGE && s.granted[t] && s.screens[t][e.offset] != e.b
  {
    if WritesTo(s, e, t) {
      var screen := With(s.screens[t], e.offset, e.b);
      assert screen[e.offset] == e.b;
      assert s.screens[t][e.offset] == e.b ==> screen == s.screens[t];
    }
  }

  /** No program of the run writes to the page of a terminal it does not run on. */
  ghost predicate NoIntrusions(s: Terminals, es: seq<Event>)
    requires Inv(s)
    decreases |es|
  {
    es == [] || ((es[0].Poke? && es[0].page != s.cur ==> !WritesTo(s, es[0], es[0].page)) && NoIntrusions(Step(s, es[0]), es[1..]))
  }

  /** Over every run without such writes, the screen of a terminal is what its own writes alone produce. */
  lemma {:induction false} ScreenIsOwnWrites(s: Terminals, es: seq<Event>, t: nat)
    requires Inv(s) && t < MAX_TERMINAL && NoIntrusions(s, es)
    ensures WritesOf(s, es, t, false) == WritesOf(s, es, t, true)
    ensures Run(s, es).screens[t] == Written(s.screens[t], WritesOf(s, es, t, true))
    decreases |es|
  {
    ScreenIsWritesToIt(s, es, t);
    if es != [] {
      ScreenIsOwnWrites(Step(s, es[0]), es[1..], t);
    }
  }

  /** It fails otherwise: after a switch, a program can write to the screen of the terminal that was left. */
  lemma LeftTerminalIsOpen(s: Terminals, u: nat, offset: nat, b: byte)
    requires Inv(s) && u < MAX_TERMINAL && u != s.cur && offset < PAGE && s.screens[s.cur][offset] != b
    ensures var es := [Switch(u), Poke(s.cur, offset, b)];
            && Run(s, es).screens[s.cur] != s.screens[s.cur]
            && WritesOf(s, es, s.cur, true) == []
  {
    var e := Poke(s.cur, offset, b);
    var s1 := Step(s, Switch(u));
    assert [Switch(u), e][1..] == [e] && [e][1..] == [];
    assert Run(s1, [e]) == Run(Step(s1, e), []) == Step(s1, e);
    IntrusionIff(s1, e, s.cur);
    assert WritesOf(s1, [e], s.cur, true) == [];
  }

  // ---------------------------------------------------------------------
  // Pages
  // ---------------------------------------------------------------------

  function BackupOf(t: nat): (a: int) {
    BACKUP_VID1 + t * PAGE
  }

  function VirtualOf(t: nat): (a: int) {
    VIRT_VID_TERM1 + t * PAGE
  }

  /** `entry | RW_P_SET`. */
  function WithPresent(entry: int): (e: int) {
    entry - entry % 4 + 3
  }

  /** The 4 KB frame of a page-table entry (section 4.3 of Intel SDM volume 3A: bits 31 to 12), its present
      bit (bit 0) and its user bit (bit 2). */
  function FrameOf(entry: int): (base: int) {
    entry - entry % PAGE
  }

  predicate Present(entry: int) {
    entry % 2 == 1
  }

  predicate UserMay(entry: int) {
    entry / 4 % 2 == 1
  }

  /** The entries that occur, and what they decode to. */
  lemma Entries(t: nat)
    requires t < MAX_TERMINAL
    ensures WithPresent(BackupOf(t)) == BackupOf(t) + 3 && WithPresent(BackupOf(t) + 7) == BackupOf(t) + 7
    ensures WithPresent(VIDEO + 7) == VIDEO + 7
    ensures FrameOf(VIDEO + 3) == FrameOf(VIDEO + 7) == VIDEO
    ensures FrameOf(BackupOf(t) + 3) == FrameOf(BackupOf(t) + 7) == BackupOf(t)
    ensures Present(VIDEO + 3) && Present(VIDEO + 7) && Present(BackupOf(t) + 3) && Present(BackupOf(t) + 7)
    ensures UserMay(VIDEO + 7) && UserMay(BackupOf(t) + 7) && !UserMay(BackupOf(t) + 3)
    ensures VirtualOf(t) / PAGE_4MB == 64 && VirtualOf(t) % PAGE_4MB / PAGE == t && VirtualOf(t) != VIDEO
    ensures BackupOf(t) != VIDEO
    ensures VIDEO == 0xB8000 && BackupOf(t) == 0xB9000 + t * 0x1000 && VirtualOf(t) == 0x1000_0000 + t * 0x1000
  {
  }

  /** Where a page from 256 MB on is looked up. */
  lemma PageIndex(page: nat)
    ensures VirtualOf(page) / PAGE_4MB == 64 + page / 1024 && VirtualOf(page) % PAGE_4MB / PAGE == page % 1024
    ensures VirtualOf(page) != VIDEO
  {
    var q, r := page / 1024, page % 1024;
    assert VirtualOf(page) == (64 + q) * PAGE_4MB + r * PAGE;
  }

  class Display {
    var currTerminal: nat
    var oldTerminal: nat
    /** The four physical pages, by address. */
    var memory: map<int, Screen>
    /** `page_table[VIDEO >> 12]`, `page_directory` from 256 MB on, `user_page_table`; absent entries are not present. */
    var videoEntry: int
    var directory: map<int, int>
    var userTable: map<int, int>
    const userTableAddress: int
    ghost var s: Terminals

    /** The physical page a virtual page address leads to, and whether user code may write there. */
    function Translate(virt: int): (e: int)
      reads this
    {
      if virt == VIDEO then videoEntry
      else if virt / PAGE_4MB in directory && directory[virt / PAGE_4MB] == userTableAddress + USER_MASK
              && virt % PAGE_4MB / PAGE in userTable
      then userTable[virt % PAGE_4MB / PAGE]
      else 0
    }

    /** The entries of the terminals' virtual pages: every terminal in the background leads to its own backup,
        the current one to video memory or, before any program may write there, still to its backup. */
    ghost predicate TablesFit()
      requires Inv(s)
      reads this
    {
      && userTableAddress % PAGE == 0
      && videoEntry == VIDEO + 3
      && 64 in directory && directory[64] == userTableAddress + USER_MASK
      && (forall k | k in directory :: k == 64) && (forall k | k in userTable :: 0 <= k < MAX_TERMINAL)
      && forall t: nat | t < MAX_TERMINAL ::
           t in userTable && userTable[t] == if !s.granted[t] then BackupOf(t) + 3
                                             else if t == s.cur then VIDEO + 7
                                             else BackupOf(t) + 7
    }

    ghost predicate PagesFit()
      requires Inv(s)
      reads this
    {
      && VIDEO in memory && memory[VIDEO] == s.screens[s.cur]
      && forall t: nat | t < MAX_TERMINAL ::
           BackupOf(t) in memory && |memory[BackupOf(t)]| == PAGE && (t != s.cur ==> memory[BackupOf(t)] == s.screens[t])
    }

    ghost predicate Valid()
      reads this
    {
      Inv(s) && currTerminal == s.cur && TablesFit() && PagesFit()
    }

    /** `map_virt_to_phys`: the page leads where it should, and every other page still leads where it did, provided its
        4 MB were mapped to the table already. */
    method MapVirtToPhys(virt: int, phys: int)
      modifies this`directory, this`userTable
      ensures directory == old(directory)[virt / PAGE_4MB := userTableAddress + USER_MASK]
      ensures userTable == old(userTable)[virt % PAGE_4MB / PAGE := WithPresent(phys)]
      ensures virt != VIDEO ==> Translate(virt) == WithPresent(phys)
      ensures old(directory) == directory ==>
                forall v | v % PAGE_4MB / PAGE != virt % PAGE_4MB / PAGE :: Translate(v) == old(Translate(v))
    {
      directory := directory[virt / PAGE_4MB := userTableAddress + USER_MASK];
      userTable := userTable[virt % PAGE_4MB / PAGE := WithPresent(phys)];
    }

    /** What a program or the kernel sees at a page. */
    function PageAt(virt: int): (screen: Screen)
      requires FrameOf(Translate(virt)) in memory
      reads this
    {
      memory[FrameOf(Translate(virt))]
    }

    /** `memcpy` of one page between virtual addresses. */
    method CopyPage(dst: int, src: int)
      requires Present(Translate(dst)) && Present(Translate(src))
      requires FrameOf(Translate(src)) in memory
      modifies this`memory
      ensures FrameOf(Translate(dst)) in memory && PageAt(dst) == old(PageAt(src))
      ensures memory == old(memory)[FrameOf(Translate(dst)) := old(PageAt(src))]
    {
      memory := memory[FrameOf(Translate(dst)) := memory[FrameOf(Translate(src))]];
    }

    /** The four lines of `terminal_switch` that exchange the screens; their order matters, because the second
        and the third go through the mappings the first and the last change. */
    method ExchangeScreens()
      requires oldTerminal < MAX_TERMINAL && currTerminal < MAX_TERMINAL && oldTerminal != currTerminal
      requires videoEntry == VIDEO + 3 && 64 in directory && directory[64] == userTableAddress + USER_MASK
      requires currTerminal in userTable
      requires userTable[currTerminal] == BackupOf(currTerminal) + 3 || userTable[currTerminal] == BackupOf(currTerminal) + 7
      requires VIDEO in memory && BackupOf(currTerminal) in memory
      modifies this`directory, this`userTable, this`memory
      ensures memory == old(memory)[BackupOf(oldTerminal) := old(memory)[VIDEO]][VIDEO := old(memory)[BackupOf(currTerminal)]]
      ensures userTable == old(userTable)[oldTerminal := BackupOf(oldTerminal) + 7][currTerminal := VIDEO + 7]
      ensures directory == old(directory)
    {
      Entries(oldTerminal);
      Entries(currTerminal);
      MapVirtToPhys(VirtualOf(oldTerminal), BackupOf(oldTerminal) + USER_MASK);
      CopyPage(VirtualOf(oldTerminal), VIDEO);
      CopyPage(VIDEO, VirtualOf(currTerminal));
      MapVirtToPhys(VirtualOf(currTerminal), VIDEO + USER_MASK);
    }

    /** The screen part of `terminal_switch`. */
    method Switch(terminal: nat) returns (r: int)
      requires Valid()
      modifies this
      ensures Valid() && s == Step(old(s), Event.Switch(terminal))
      ensures r == if terminal < 3 then 0 else -1
      ensures currTerminal == if terminal < 3 then terminal else old(currTerminal)
      ensures forall t: nat | t < MAX_TERMINAL :: Shown(t) == old(Shown(t))
    {
      if terminal == currTerminal {
        return 0;
      }
      if terminal >= MAX_TERMINAL {
        return -1;
      }
      oldTerminal := currTerminal;
      currTerminal := terminal;
      ExchangeScreens();
      s := Step(s, Event.Switch(terminal));
      return 0;
    }

    /** `vidmap`: the address of the caller's cell must lie in the program page; `cell` is what it holds. */
    method Vidmap(screenStart: int, cell: int) returns (r: int, cell': int)
      requires Valid()
      modifies this
      ensures Valid()
      ensures if 0x0800_0000 <= screenStart < 0x0840_0000
              then r == cell' == 0x1000_0000 + currTerminal * 0x1000 && s == Step(old(s), Event.Vidmap)
                   && FrameOf(Translate(r)) == VIDEO && Present(Translate(r)) && UserMay(Translate(r))
              else r == -1 && cell' == cell && s == old(s)
      ensures currTerminal == old(currTerminal) && forall t: nat | t < MAX_TERMINAL :: Shown(t) == old(Shown(t))
    {
      if screenStart == 0 || screenStart < PROGRAM_PAGE || screenStart >= PROGRAM_PAGE + PAGE_4MB {
        return -1, cell;
      }
      Entries(currTerminal);
      cell' := VirtualOf(currTerminal);
      MapVirtToPhys(cell', VIDEO + USER_MASK);
      s := Step(s, Event.Vidmap);
      r := cell';
    }

    /** The kernel writes a byte of video memory. */
    method Put(offset: nat, b: byte)
      requires Valid() && offset < PAGE
      modifies this
      ensures Valid() && s == Step(old(s), Event.Put(offset, b))
      ensures forall t: nat, i: nat | t < MAX_TERMINAL && i < PAGE ::
                Shown(t)[i] == if t == currTerminal && i == offset then b else old(Shown(t))[i]
    {
      Entries(currTerminal);
      var page := FrameOf(Translate(VIDEO));
      memory := memory[page := With(memory[page], offset, b)];
      s := Step(s, Event.Put(offset, b));
    }

    /** A program writes to one of the pages from 256 MB on. The byte lands on the screen of the terminal of that number if
        programs were given its page, and nowhere otherwise: that is a page fault. */
    method Poke(page: nat, offset: nat, b: byte) returns (ok: bool)
      requires Valid() && offset < PAGE
      modifies this
      ensures Valid() && s == Step(old(s), Event.Poke(page, offset, b))
      ensures ok <==> page < MAX_TERMINAL && old(s).granted[page]
      ensures forall t: nat, i: nat | t < MAX_TERMINAL && i < PAGE ::
                Shown(t)[i] == if ok && t == page && i == offset then b else old(Shown(t))[i]
    {
      PageIndex(page);
      var entry := Translate(VirtualOf(page));
      ok := Present(entry) && UserMay(entry);
      if page < MAX_TERMINAL {
        Entries(page);
      }
      if ok {
        memory := memory[FrameOf(entry) := With(memory[FrameOf(entry)], offset, b)];
      }
      s := Step(s, Event.Poke(page, offset, b));
    }

    /** `paging_init`: what is on the screen at boot is the screen of terminal 0, the others show their backups. */
    constructor (pages: map<int, Screen>, tableAddress: int)
      requires tableAddress % PAGE == 0
      requires VIDEO in pages && |pages[VIDEO]| == PAGE
      requires forall t: nat | t < MAX_TERMINAL :: BackupOf(t) in pages && |pages[BackupOf(t)]| == PAGE
      ensures Valid()
      ensures s == Terminals(0, [pages[VIDEO], pages[BackupOf(1)], pages[BackupOf(2)]], [false, false, false])
    {
      currTerminal, oldTerminal := 0, 0;
      memory := pages;
      videoEntry := WithPresent(VIDEO);
      directory, userTable := map[], map[];
      userTableAddress := tableAddress;
      s := Terminals(0, [pages[VIDEO], pages[BackupOf(1)], pages[BackupOf(2)]], [false, false, false]);
      new;
      MapBackups();
    }

    /** The three mappings of `paging_init`. */
    method MapBackups()
      requires directory == map[] && userTable == map[]
      modifies this`directory, this`userTable
      ensures directory == map[64 := userTableAddress + USER_MASK]
      ensures userTable == map[0 := BackupOf(0) + 3, 1 := BackupOf(1) + 3, 2 := BackupOf(2) + 3]
    {
      Entries(0);
      Entries(1);
      Entries(2);
      MapVirtToPhys(VIRT_VID_TERM1, BackupOf(0));
      MapVirtToPhys(VIRT_VID_TERM1 + PAGE, BackupOf(1));
      MapVirtToPhys(VIRT_VID_TERM1 + 2 * PAGE, BackupOf(2));
    }

    method Perform(e: Event)
      requires Valid()
      modifies this
      ensures Valid() && s == Step(old(s), e)
    {
      match e
      case Put(offset, b) => if offset < PAGE { Put(offset, b); }
      case Poke(page, offset, b) => if offset < PAGE { var ok := Poke(page, offset, b); }
      case Vidmap => var r, cell := Vidmap(PROGRAM_PAGE, 0);
      case Switch(t) => var r := Switch(t);
    }

    /** What terminal `t` shows: video memory if it is current, else its backup. */
    ghost function Shown(t: nat): (screen: Screen)
      requires Valid() && t < MAX_TERMINAL
      reads this
      ensures |screen| == PAGE && screen == s.screens[t]
    {
      if t == currTerminal then memory[VIDEO] else memory[BackupOf(t)]
    }

    /** For every interleaving of writes, `vidmap` calls and switches, every terminal shows what the writes addressed to it
        produce; without writes of programs to the pages of other terminals, what its own writes alone produce. */
    method PerformAll(es: seq<Event>)
      requires Valid()
      modifies this
      ensures Valid() && s == Run(old(s), es)
      ensures forall t: nat | t < MAX_TERMINAL :: Shown(t) == Written(old(Shown(t)), WritesOf(old(s), es, t, false))
      ensures NoIntrusions(old(s), es) ==>
                forall t: nat | t < MAX_TERMINAL :: Shown(t) == Written(old(Shown(t)), WritesOf(old(s), es, t, true))
      ensures forall t: nat, i: nat | t < MAX_TERMINAL && i < PAGE ::
                LastWritten(old(s), es, t, i, old(Shown(t))[i], Shown(t)[i])
    {
      ghost var start := s;
      for i := 0 to |es|
        invariant Valid() && Run(start, es) == Run(s, es[i..])
      {
        Perform(es[i]);
        assert es[i..][1..] == es[i + 1..];
      }
      forall t: nat | t < MAX_TERMINAL
        ensures Shown(t) == Written(start.screens[t], WritesOf(start, es, t, false))
        ensures NoIntrusions(start, es) ==> Shown(t) == Written(start.screens[t], WritesOf(start, es, t, true))
      {
        ScreenIsWritesToIt(start, es, t);
        if NoIntrusions(start, es) {
          ScreenIsOwnWrites(start, es, t);
        }
      }
      forall t: nat, i: nat | t < MAX_TERMINAL && i < PAGE
        ensures LastWritten(start, es, t, i, start.screens[t][i], Shown(t)[i])
      {
        ByteIsLastWritten(start, es, t, i);
      }
    }
  }
}
