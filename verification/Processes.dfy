/** The process and terminal controller as its users see it: three terminals, each running a LIFO chain of
    processes, over eight shared slots. */
module Machines {
  import opened Bytes
  import opened Paging

  const EXCEPTION_STATUS := 255

  /** A saved kernel stack position (esp, ebp). */
  datatype Frame = Frame(esp: int, ebp: int)

  /** What the file named by a command turns out to be: no loadable file, a regular file without
      the ELF magic, or an executable. */
  datatype Program = Missing | NotExecutable | Executable

  /** A process of a chain; `frame` is the stack position of the `execute` that started it. If the file was not an
      executable that `execute` gave up after taking the slot, and has not `ran` the program. */
  datatype Proc = Proc(pid: nat, frame: Frame, ran: bool)

  /** `chains[t]` runs from the base shell to the process in front; empty before the terminal is first used.
      `left[t]` is the stack position at which terminal `t` was last left, `launches[p]` the one that the PCB of slot `p`
      holds for `halt`; `mapped` is the process whose memory is in the page directory, `esp0` the stack position
      with which the processor enters the kernel. */
  datatype Machine = Machine(cur: nat, chains: seq<seq<Proc>>, left: seq<Option<Frame>>, launches: seq<Frame>,
                             flag: int, mapped: nat, esp0: int)

  /** `frame` is the stack position at the event. A shell that a halt starts is launched from it; one that a switch starts
      is launched from `inner`, deeper in the stack. */
  datatype Event =
    | Execute(program: Program, frame: Frame)
    | Halt(status: nat, frame: Frame)
    | Fault(frame: Frame)
    | Switch(terminal: nat, frame: Frame, inner: Frame)

  /** Where control goes: back to the caller with a value, into a new program, or to a saved stack position. */
  datatype Control =
    | Returns(value: int)
    | Enters(pid: nat)
    | Resumes(frame: Frame, value: int)

  // ---------------------------------------------------------------------
  // Slots
  // ---------------------------------------------------------------------

  ghost predicate Place(chains: seq<seq<Proc>>, t: int, i: int) {
    0 <= t < |chains| && 0 <= i < |chains[t]|
  }

  ghost function PidAt(chains: seq<seq<Proc>>, t: int, i: int): (p: nat)
    requires Place(chains, t, i)
  {
    chains[t][i].pid
  }

  ghost predicate InChain(chains: seq<seq<Proc>>, p: nat) {
    exists t, i | Place(chains, t, i) :: PidAt(chains, t, i) == p
  }

  /** A slot is taken by a process of a chain, or reserved for a terminal not used yet. */
  ghost predicate Taken(chains: seq<seq<Proc>>, p: nat) {
    InChain(chains, p) || (p < |chains| && chains[p] == [])
  }

  ghost function Busy(chains: seq<seq<Proc>>): (s: set<nat>) {
    set p: nat | p < MAX_PROCESSES && Taken(chains, p)
  }

  /** The slot the search loop of `execute` finds; 8 if there is none. */
  ghost function LowestFree(busy: set<nat>, from: nat): (p: nat)
    requires from <= MAX_PROCESSES
    ensures from <= p <= MAX_PROCESSES
    ensures p < MAX_PROCESSES ==> p !in busy
    ensures forall q: nat | from <= q < p :: q in busy
    decreases MAX_PROCESSES - from
  {
    if from == MAX_PROCESSES || from !in busy then from else LowestFree(busy, from + 1)
  }

  ghost function Front(m: Machine): (p: Proc)
    requires m.cur < |m.chains| && m.chains[m.cur] != []
  {
    m.chains[m.cur][|m.chains[m.cur]| - 1]
  }

  // ---------------------------------------------------------------------
  // Events
  // ---------------------------------------------------------------------

  /** `execute` on the current terminal when the slots in use are `busy`. */
  ghost function Launch(m: Machine, busy: set<nat>, program: Program, frame: Frame): (r: (Machine, Control))
    requires m.cur < |m.chains| && |m.launches| == MAX_PROCESSES
  {
    var p := LowestFree(busy, 0);
    if program == Missing || p == MAX_PROCESSES then (m, Returns(-1))
    else
      var proc := Proc(p, frame, program == Executable);
      var chain := if p < MAX_TERMINAL then [proc] else m.chains[m.cur] + [proc];
      var m' := m.(chains := m.chains[m.cur := chain]);
      if program == Executable
      then (m'.(mapped := p, launches := m.launches[p := frame], esp0 := StackTop(p)), Enters(p))
      else (m', Returns(-1))
  }

  ghost function Step(m: Machine, e: Event): (r: (Machine, Control))
    requires Inv(m)
  {
    match e
    case Execute(program, frame) => Launch(m, Busy(m.chains), program, frame)
    case Halt(status, frame) => HaltStep(m, status, frame)
    case Fault(frame) => HaltStep(m.(flag := 1), EXCEPTION_STATUS, frame)
    case Switch(t, frame, inner) =>
      if t == m.cur then (m, Returns(0))
      else if t >= MAX_TERMINAL then (m, Returns(-1))
      else
        var m' := m.(left := m.left[m.cur := Some(frame)], cur := t);
        if m.chains[t] == [] then Launch(m', Busy(m.chains) - {t}, Executable, inner)
        else (m'.(mapped := Front(m').pid, esp0 := StackTop(Front(m').pid)), Resumes(m.left[t].value, 0))
  }

  /** `halt`: a base shell is started again, any other process gives way to its parent. */
  ghost function HaltStep(m: Machine, status: nat, frame: Frame): (r: (Machine, Control))
    requires Inv(m)
  {
    FrontIsBase(m);
    if Front(m).pid < MAX_TERMINAL then
      Launch(m, Busy(m.chains) - {Front(m).pid}, Executable, frame)
    else
      var chain := m.chains[m.cur][..|m.chains[m.cur]| - 1];
      var parent := chain[|chain| - 1].pid;
      (m.(chains := m.chains[m.cur := chain], flag := 0, mapped := parent, esp0 := m.launches[parent].esp),
       Resumes(m.launches[Front(m).pid], status % 256 + m.flag))
  }

  // ---------------------------------------------------------------------
  // The invariant of every run
  // ---------------------------------------------------------------------

  /** Each chain starts at its terminal's own slot and goes on in slots 3 to 7; no slot appears twice. */
  ghost predicate ChainsInv(chains: seq<seq<Proc>>) {
    && |chains| == MAX_TERMINAL
    && (forall t, i | Place(chains, t, i) ::
          if i == 0 then PidAt(chains, t, i) == t else MAX_TERMINAL <= PidAt(chains, t, i) < MAX_PROCESSES)
    && (forall t, i, u, j | Place(chains, t, i) && Place(chains, u, j) && PidAt(chains, t, i) == PidAt(chains, u, j) ::
          t == u && i == j)
  }

  /** The PCB of a process that was started holds the stack position of its own `execute`. */
  ghost predicate LaunchesFit(chains: seq<seq<Proc>>, launches: seq<Frame>) {
    && |launches| == MAX_PROCESSES
    && forall t, i | Place(chains, t, i) :: LaunchFits(chains, t, i, launches)
  }

  ghost predicate LaunchFits(chains: seq<seq<Proc>>, t: int, i: int, launches: seq<Frame>)
    requires Place(chains, t, i)
  {
    var proc := chains[t][i];
    proc.pid < |launches| && (proc.ran ==> launches[proc.pid] == proc.frame)
  }

  /** ... the current terminal is in use, every other one in use was left, and the mapped memory is of its chain. */
  ghost predicate Inv(m: Machine) {
    && ChainsInv(m.chains) && LaunchesFit(m.chains, m.launches)
    && m.cur < MAX_TERMINAL && m.chains[m.cur] != []
    && |m.left| == MAX_TERMINAL
    && (forall t | 0 <= t < MAX_TERMINAL && t != m.cur && m.chains[t] != [] :: m.left[t].Some?)
    && (exists i | Place(m.chains, m.cur, i) :: PidAt(m.chains, m.cur, i) == m.mapped)
    && 0 <= m.flag <= 1
  }

  /** The first three slots are always taken, so the base slot of a terminal is found again exactly when it is
      given up, and every other program gets a slot beyond them. */
  lemma BaseSlots(chains: seq<seq<Proc>>, t: nat)
    requires ChainsInv(chains) && t < MAX_TERMINAL
    ensures LowestFree(Busy(chains) - {t}, 0) == t
    ensures LowestFree(Busy(chains), 0) >= MAX_TERMINAL
  {
    forall p: nat | p < MAX_TERMINAL
      ensures p in Busy(chains)
    {
      assert chains[p] != [] ==> Place(chains, p, 0) && PidAt(chains, p, 0) == p;
    }
  }

  lemma PushKeepsChains(chains: seq<seq<Proc>>, t: nat, proc: Proc, chains': seq<seq<Proc>>)
    requires ChainsInv(chains) && t < MAX_TERMINAL && chains[t] != []
    requires MAX_TERMINAL <= proc.pid < MAX_PROCESSES && !InChain(chains, proc.pid)
    requires chains' == chains[t := chains[t] + [proc]]
    ensures ChainsInv(chains')
  {
    forall u, j | Place(chains', u, j)
      ensures if u == t && j == |chains[t]| then PidAt(chains', u, j) == proc.pid
              else Place(chains, u, j) && PidAt(chains', u, j) == PidAt(chains, u, j) != proc.pid
    {
    }
  }

  lemma PopKeepsChains(chains: seq<seq<Proc>>, t: nat, chains': seq<seq<Proc>>)
    requires ChainsInv(chains) && t < MAX_TERMINAL && |chains[t]| > 1
    requires chains' == chains[t := chains[t][..|chains[t]| - 1]]
    ensures ChainsInv(chains')
  {
    forall u, j | Place(chains', u, j)
      ensures Place(chains, u, j) && PidAt(chains', u, j) == PidAt(chains, u, j)
    {
    }
  }

  lemma BaseKeepsChains(chains: seq<seq<Proc>>, t: nat, proc: Proc, chains': seq<seq<Proc>>)
    requires ChainsInv(chains) && t < MAX_TERMINAL && |chains[t]| <= 1 && proc.pid == t
    requires chains' == chains[t := [proc]]
    ensures ChainsInv(chains')
  {
    forall u, j | Place(chains', u, j)
      ensures if u == t then j == 0 && PidAt(chains', u, j) == t
              else Place(chains, u, j) && PidAt(chains', u, j) == PidAt(chains, u, j) != t
    {
    }
  }

  /** A process that starts in a slot of no other process leaves what the other PCBs hold. */
  lemma LaunchKeepsFits(chains: seq<seq<Proc>>, launches: seq<Frame>, t: nat, chain: seq<Proc>,
                        chains': seq<seq<Proc>>, launches': seq<Frame>, p: nat)
    requires LaunchesFit(chains, launches) && t < |chains| && p < MAX_PROCESSES && chains' == chains[t := chain]
    requires |launches'| == MAX_PROCESSES && forall q | 0 <= q < MAX_PROCESSES && q != p :: launches'[q] == launches[q]
    requires forall u, j | Place(chains', u, j) && PidAt(chains', u, j) == p :: LaunchFits(chains', u, j, launches')
    requires forall j | 0 <= j < |chain| && chain[j].pid != p :: j < |chains[t]| && chain[j] == chains[t][j]
    ensures LaunchesFit(chains', launches')
  {
    forall u, j | Place(chains', u, j)
      ensures LaunchFits(chains', u, j, launches')
    {
      if PidAt(chains', u, j) != p {
        assert Place(chains, u, j) && LaunchFits(chains, u, j, launches);
      }
    }
  }

  /** In front of a chain is a base slot exactly when the chain is the base shell alone. */
  lemma FrontIsBase(m: Machine)
    requires Inv(m)
    ensures Front(m).pid < MAX_TERMINAL <==> |m.chains[m.cur]| == 1
    ensures Front(m).pid < MAX_TERMINAL ==> Front(m).pid == m.cur
    ensures Front(m).pid < MAX_PROCESSES && InChain(m.chains, Front(m).pid)
    ensures |m.chains[m.cur]| > 1 ==> m.chains[m.cur][|m.chains[m.cur]| - 2].pid < MAX_PROCESSES
    ensures Front(m).ran ==> m.launches[Front(m).pid] == Front(m).frame
  {
    var i := |m.chains[m.cur]| - 1;
    assert Place(m.chains, m.cur, i) && PidAt(m.chains, m.cur, i) == Front(m).pid;
    assert LaunchFits(m.chains, m.cur, i, m.launches);
    assert i > 0 ==> Place(m.chains, m.cur, i - 1) && PidAt(m.chains, m.cur, i - 1) < MAX_PROCESSES;
  }

  /** Halting a base shell starts it again in the same slot. */
  lemma Restart(m: Machine, status: nat, frame: Frame)
    requires Inv(m) && |m.chains[m.cur]| == 1
    ensures Front(m).pid == m.cur
    ensures HaltStep(m, status, frame)
         == (m.(chains := m.chains[m.cur := [Proc(m.cur, frame, true)]], mapped := m.cur,
                launches := m.launches[m.cur := frame], esp0 := StackTop(m.cur)), Enters(m.cur))
    ensures Inv(HaltStep(m, status, frame).0)
  {
    FrontIsBase(m);
    BaseSlots(m.chains, m.cur);
    var m' := HaltStep(m, status, frame).0;
    BaseKeepsChains(m.chains, m.cur, Proc(m.cur, frame, true), m'.chains);
    LaunchKeepsFits(m.chains, m.launches, m.cur, [Proc(m.cur, frame, true)], m'.chains, m'.launches, m.cur);
    assert Place(m'.chains, m'.cur, 0) && PidAt(m'.chains, m'.cur, 0) == m'.mapped;
  }

  /** Halting any other process makes its parent the one in front. It resumes the stack position that the PCB of the process
      holds, which is that of its own `execute` if the program ran; the kernel is entered from then on with the
      stack position at which the parent itself was started. */
  lemma ReturnToParent(m: Machine, status: nat, frame: Frame)
    requires Inv(m) && |m.chains[m.cur]| > 1
    ensures MAX_TERMINAL <= Front(m).pid < MAX_PROCESSES
    ensures var (m', control) := HaltStep(m, status, frame);
            && Inv(m') && m'.cur == m.cur && m'.left == m.left && m'.launches == m.launches && m'.flag == 0
            && m'.chains == m.chains[m.cur := m.chains[m.cur][..|m.chains[m.cur]| - 1]]
            && m'.mapped == Front(m').pid < MAX_PROCESSES
            && m'.esp0 == m.launches[Front(m').pid].esp && (Front(m').ran ==> m'.esp0 == Front(m').frame.esp)
            && control.Resumes? && control.value == status % 256 + m.flag
            && control.frame == m.launches[Front(m).pid] && (Front(m).ran ==> control.frame == Front(m).frame)
  {
    FrontIsBase(m);
    var m' := HaltStep(m, status, frame).0;
    PopKeepsChains(m.chains, m.cur, m'.chains);
    forall u, j | Place(m'.chains, u, j)
      ensures LaunchFits(m'.chains, u, j, m.launches)
    {
      assert Place(m.chains, u, j) && LaunchFits(m.chains, u, j, m.launches);
    }
    var i := |m'.chains[m'.cur]| - 1;
    assert Place(m'.chains, m'.cur, i) && PidAt(m'.chains, m'.cur, i) == m'.mapped;
    FrontIsBase(m');
  }

  lemma HaltKeepsInv(m: Machine, status: nat, frame: Frame)
    requires Inv(m)
    ensures Inv(HaltStep(m, status, frame).0)
  {
    if |m.chains[m.cur]| == 1 {
      Restart(m, status, frame);
    } else {
      ReturnToParent(m, status, frame);
    }
  }

  /** A program that gets a slot goes in front of the chain of the terminal it was started from. */
  lemma Start(m: Machine, program: Program, frame: Frame, p: nat)
    requires Inv(m) && program != Missing && p == LowestFree(Busy(m.chains), 0) < MAX_PROCESSES
    ensures p >= MAX_TERMINAL && !InChain(m.chains, p)
    ensures var proc := Proc(p, frame, program == Executable);
            var m' := m.(chains := m.chains[m.cur := m.chains[m.cur] + [proc]]);
            Launch(m, Busy(m.chains), program, frame) ==
            if program == Executable
            then (m'.(mapped := p, launches := m.launches[p := frame], esp0 := StackTop(p)), Enters(p))
            else (m', Returns(-1))
    ensures Inv(Launch(m, Busy(m.chains), program, frame).0)
  {
    BaseSlots(m.chains, m.cur);
    var m' := Launch(m, Busy(m.chains), program, frame).0;
    var n := |m.chains[m.cur]|;
    PushKeepsChains(m.chains, m.cur, m'.chains[m.cur][n], m'.chains);
    StartKeepsFits(m, program, frame, p, m');
    if program == Executable {
      assert Place(m'.chains, m'.cur, n) && PidAt(m'.chains, m'.cur, n) == m'.mapped;
    } else {
      var i :| Place(m.chains, m.cur, i) && PidAt(m.chains, m.cur, i) == m.mapped;
      assert Place(m'.chains, m'.cur, i) && PidAt(m'.chains, m'.cur, i) == m'.mapped;
    }
  }

  lemma StartKeepsFits(m: Machine, program: Program, frame: Frame, p: nat, m': Machine)
    requires Inv(m) && p < MAX_PROCESSES && !InChain(m.chains, p)
    requires var proc := Proc(p, frame, program == Executable); m'.chains == m.chains[m.cur := m.chains[m.cur] + [proc]]
    requires m'.launches == if program == Executable then m.launches[p := frame] else m.launches
    ensures LaunchesFit(m'.chains, m'.launches)
  {
    forall u, j | Place(m'.chains, u, j) && PidAt(m'.chains, u, j) == p
      ensures LaunchFits(m'.chains, u, j, m'.launches)
    {
      assert Place(m.chains, u, j) ==> PidAt(m.chains, u, j) != p;
    }
    LaunchKeepsFits(m.chains, m.launches, m.cur, m'.chains[m.cur], m'.chains, m'.launches, p);
  }

  /** The first switch to a terminal starts its base shell in the slot of the same number. */
  lemma FirstSwitch(m: Machine, t: nat, frame: Frame, inner: Frame)
    requires Inv(m) && t < MAX_TERMINAL && t != m.cur && m.chains[t] == []
    ensures Step(m, Switch(t, frame, inner))
         == (m.(left := m.left[m.cur := Some(frame)], cur := t, mapped := t, launches := m.launches[t := inner],
                chains := m.chains[t := [Proc(t, inner, true)]], esp0 := StackTop(t)), Enters(t))
    ensures Inv(Step(m, Switch(t, frame, inner)).0)
  {
    BaseSlots(m.chains, t);
    var m' := Step(m, Switch(t, frame, inner)).0;
    BaseKeepsChains(m.chains, t, Proc(t, inner, true), m'.chains);
    LaunchKeepsFits(m.chains, m.launches, t, [Proc(t, inner, true)], m'.chains, m'.launches, t);
    assert Place(m'.chains, t, 0) && PidAt(m'.chains, t, 0) == m'.mapped;
  }

  /** Any later switch resumes where the terminal was left, with the memory and the stack of the process in front. */
  lemma LaterSwitch(m: Machine, t: nat, frame: Frame, inner: Frame)
    requires Inv(m) && t < MAX_TERMINAL && t != m.cur && m.chains[t] != []
    ensures var (m', control) := Step(m, Switch(t, frame, inner));
            && Inv(m') && m'.cur == t && m'.chains == m.chains && m'.launches == m.launches && m'.flag == m.flag
            && m'.left == m.left[m.cur := Some(frame)]
            && m'.mapped == Front(m').pid < MAX_PROCESSES && m'.esp0 == StackTop(Front(m').pid)
            && control.Resumes? && Some(control.frame) == m.left[t] && control.value == 0
  {
    var m' := Step(m, Switch(t, frame, inner)).0;
    var i := |m'.chains[t]| - 1;
    assert Place(m'.chains, t, i) && PidAt(m'.chains, t, i) == m'.mapped;
  }

  /** An `execute` changes nothing and returns -1 exactly when there is no such file or all eight slots are taken. */
  lemma RefusedIff(m: Machine, program: Program, frame: Frame)
    requires Inv(m)
    ensures Step(m, Execute(program, frame)) == (m, Returns(-1)) <==>
            program == Missing || forall p: nat | p < 8 :: p in Busy(m.chains)
  {
    var p := LowestFree(Busy(m.chains), 0);
    if program != Missing && p < MAX_PROCESSES {
      Start(m, program, frame, p);
      var m' := Step(m, Execute(program, frame)).0;
      assert |m'.chains[m.cur]| == |m.chains[m.cur]| + 1;
    }
  }

  /** A switch to the current terminal returns 0, one to a terminal other than 0, 1 and 2 returns -1; both change nothing. */
  lemma SwitchRefused(m: Machine, t: nat, frame: Frame, inner: Frame)
    requires Inv(m) && (t == m.cur || t >= 3)
    ensures Step(m, Switch(t, frame, inner)) == (m, Returns(if t == m.cur then 0 else -1))
  {
  }

  /** Every event keeps the invariant. */
  lemma StepKeepsInv(m: Machine, e: Event)
    requires Inv(m)
    ensures Inv(Step(m, e).0)
  {
    match e
    case Execute(program, frame) =>
      if program != Missing && LowestFree(Busy(m.chains), 0) < MAX_PROCESSES {
        Start(m, program, frame, LowestFree(Busy(m.chains), 0));
      }
    case Halt(status, frame) => HaltKeepsInv(m, status, frame);
    case Fault(frame) => HaltKeepsInv(m.(flag := 1), EXCEPTION_STATUS, frame);
    case Switch(t, frame, inner) =>
      if t < MAX_TERMINAL && t != m.cur {
        if m.chains[t] == [] {
          FirstSwitch(m, t, frame, inner);
        } else {
          LaterSwitch(m, t, frame, inner);
        }
      }
  }

  // ---------------------------------------------------------------------
  // Whole runs
  // ---------------------------------------------------------------------

  ghost function Run(m: Machine, es: seq<Event>): (m': Machine)
    requires Inv(m)
    ensures Inv(m')
    decreases |es|
  {
    if es == [] then m else StepKeepsInv(m, es[0]); Run(Step(m, es[0]).0, es[1..])
  }

  /** Where control goes at each event of a run. */
  ghost function Controls(m: Machine, es: seq<Event>): (cs: seq<Control>)
    requires Inv(m)
    ensures |cs| == |es|
    decreases |es|
  {
    if es == [] then []
    else StepKeepsInv(m, es[0]); [Step(m, es[0]).1] + Controls(Step(m, es[0]).0, es[1..])
  }

  /** Throughout the run the chain of terminal `t` has more than `d` processes. */
  ghost predicate StaysDeep(m: Machine, es: seq<Event>, t: nat, d: nat)
    requires Inv(m)
    decreases |es|
  {
    && t < MAX_TERMINAL && |m.chains[t]| > d
    && (es == [] || (StepKeepsInv(m, es[0]); StaysDeep(Step(m, es[0]).0, es[1..], t, d)))
  }

  /** Throughout the run terminal `t` is not the current one. */
  ghost predicate StaysAway(m: Machine, es: seq<Event>, t: nat)
    requires Inv(m)
    decreases |es|
  {
    m.cur != t && (es == [] || (StepKeepsInv(m, es[0]); StaysAway(Step(m, es[0]).0, es[1..], t)))
  }

  /** One event leaves alone every process that another one of its chain still runs on top of, and the PCB of the one
      on top. */
  lemma StepKeepsPrefix(m: Machine, e: Event, t: nat, d: nat)
    requires Inv(m) && t < MAX_TERMINAL && 0 < d < |m.chains[t]| && d < |Step(m, e).0.chains[t]|
    ensures Step(m, e).0.chains[t][..d + 1] == m.chains[t][..d + 1]
    ensures m.chains[t][d].pid < |m.launches| == |Step(m, e).0.launches|
    ensures Step(m, e).0.launches[m.chains[t][d].pid] == m.launches[m.chains[t][d].pid]
  {
    FrontIsBase(m);
    assert Place(m.chains, t, d) && PidAt(m.chains, t, d) >= MAX_TERMINAL;
    match e
    case Execute(program, frame) =>
      BaseSlots(m.chains, m.cur);
      if program != Missing && LowestFree(Busy(m.chains), 0) < MAX_PROCESSES {
        Start(m, program, frame, LowestFree(Busy(m.chains), 0));
      }
    case Halt(status, frame) => HaltKeepsPrefix(m, status, frame, t, d);
    case Fault(frame) => HaltKeepsPrefix(m.(flag := 1), EXCEPTION_STATUS, frame, t, d);
    case Switch(u, frame, inner) =>
      if u < MAX_TERMINAL && u != m.cur {
        if m.chains[u] == [] {
          FirstSwitch(m, u, frame, inner);
        } else {
          LaterSwitch(m, u, frame, inner);
        }
      }
  }

  lemma HaltKeepsPrefix(m: Machine, status: nat, frame: Frame, t: nat, d: nat)
    requires Inv(m) && t < MAX_TERMINAL && 0 < d < |m.chains[t]| && d < |HaltStep(m, status, frame).0.chains[t]|
    ensures HaltStep(m, status, frame).0.chains[t][..d + 1] == m.chains[t][..d + 1]
    ensures m.chains[t][d].pid < |m.launches| == |HaltStep(m, status, frame).0.launches|
    ensures HaltStep(m, status, frame).0.launches[m.chains[t][d].pid] == m.launches[m.chains[t][d].pid]
  {
    assert Place(m.chains, t, d) && PidAt(m.chains, t, d) >= MAX_TERMINAL;
    if |m.chains[m.cur]| == 1 {
      Restart(m, status, frame);
    } else {
      ReturnToParent(m, status, frame);
    }
  }

  lemma {:induction false} RunKeepsPrefix(m: Machine, es: seq<Event>, t: nat, d: nat)
    requires Inv(m) && 0 < d && StaysDeep(m, es, t, d)
    ensures |Run(m, es).chains[t]| > d && Run(m, es).chains[t][..d + 1] == m.chains[t][..d + 1]
    ensures m.chains[t][d].pid < |m.launches| == |Run(m, es).launches|
    ensures Run(m, es).launches[m.chains[t][d].pid] == m.launches[m.chains[t][d].pid]
    decreases |es|
  {
    if es == [] {
      assert Place(m.chains, t, d) && PidAt(m.chains, t, d) < MAX_PROCESSES;
    } else {
      StepKeepsInv(m, es[0]);
      var m' := Step(m, es[0]).0;
      assert StaysDeep(m', es[1..], t, d);
      RunKeepsPrefix(m', es[1..], t, d);
      StepKeepsPrefix(m, es[0], t, d);
      assert m'.chains[t][d] == m'.chains[t][..d + 1][d] == m.chains[t][..d + 1][d];
    }
  }

  /** A program gets slot `p`, and after `es`, during which it stays, it is in front of its terminal again. */
  ghost predicate RunsUntil(m: Machine, program: Program, frame: Frame, es: seq<Event>, p: nat)
    requires Inv(m)
  {
    && program != Missing && p == LowestFree(Busy(m.chains), 0) < MAX_PROCESSES
    && (StepKeepsInv(m, Execute(program, frame));
        var m1 := Step(m, Execute(program, frame)).0;
        && StaysDeep(m1, es, m.cur, |m.chains[m.cur]|)
        && Run(m1, es).cur == m.cur && |Run(m1, es).chains[m.cur]| == |m.chains[m.cur]| + 1)
  }

  lemma ChildReturns(m: Machine, e: Event)
    requires Inv(m) && ChildEnds(m, e)
    ensures Front(m).pid < |m.launches|
    ensures Step(m, e).0.chains[m.cur] == m.chains[m.cur][..|m.chains[m.cur]| - 1]
    ensures Step(m, e).1 == Resumes(m.launches[Front(m).pid], if e.Fault? then 256 else e.status % 256 + m.flag)
    ensures Front(m).ran ==> m.launches[Front(m).pid] == Front(m).frame
  {
    if e.Halt? {
      ReturnToParent(m, e.status, e.frame);
    } else {
      ReturnToParent(m.(flag := 1), EXCEPTION_STATUS, e.frame);
    }
  }

  /** Whatever happens while a program runs, on this terminal or the others, its end by `halt` or by an exception takes its
      parent back to exactly the stack position of the `execute`, with the chain exactly as it was. If the file was not an
      executable, control goes instead to the position from which the slot was used the last time. */
  lemma EndResumesLaunch(m: Machine, program: Program, frame: Frame, es: seq<Event>, e: Event, p: nat)
    requires Inv(m) && RunsUntil(m, program, frame, es, p) && (e.Halt? || e.Fault?)
    ensures Inv(Step(m, Execute(program, frame)).0)
    ensures var m2 := Run(Step(m, Execute(program, frame)).0, es);
            var (m3, control) := Step(m2, e);
            && m3.chains[m.cur] == m.chains[m.cur]
            && control == Resumes(if program == Executable then frame else m.launches[p],
                                  if e.Fault? then 256 else e.status % 256 + m2.flag)
  {
    Start(m, program, frame, p);
    var m1 := Step(m, Execute(program, frame)).0;
    var d := |m.chains[m.cur]|;
    RunKeepsPrefix(m1, es, m.cur, d);
    var m2 := Run(m1, es);
    assert m2.chains[m.cur] == m2.chains[m.cur][..d + 1] == m1.chains[m.cur];
    ChildReturns(m2, e);
    assert m1.chains[m.cur][..d] == m.chains[m.cur];
  }

  /** A halt resumes the position of the process's own `execute` exactly when the program ran, leftovers that happen to
      be equal apart. */
  lemma ResumesOwnIff(m: Machine, e: Event)
    requires Inv(m) && ChildEnds(m, e)
    ensures Front(m).pid < |m.launches| && Step(m, e).1.Resumes?
    ensures Step(m, e).1.frame == Front(m).frame <==> Front(m).ran || m.launches[Front(m).pid] == Front(m).frame
  {
    ChildReturns(m, e);
  }

  /** One event leaves every terminal alone but the current one and the one switched to. */
  lemma StepKeepsAway(m: Machine, e: Event, t: nat)
    requires Inv(m) && t < MAX_TERMINAL && m.cur != t && Step(m, e).0.cur != t
    ensures Step(m, e).0.left[t] == m.left[t] && Step(m, e).0.chains[t] == m.chains[t]
  {
    FrontIsBase(m);
  }

  lemma {:induction false} RunKeepsAway(m: Machine, es: seq<Event>, t: nat)
    requires Inv(m) && t < MAX_TERMINAL && StaysAway(m, es, t)
    ensures Run(m, es).left[t] == m.left[t] && Run(m, es).chains[t] == m.chains[t] && Run(m, es).cur != t
    decreases |es|
  {
    if es != [] {
      StepKeepsInv(m, es[0]);
      var m' := Step(m, es[0]).0;
      assert StaysAway(m', es[1..], t);
      RunKeepsAway(m', es[1..], t);
      StepKeepsAway(m, es[0], t);
    }
  }

  /** The terminal is left for terminal `u`, and not switched to during `es`. */
  ghost predicate AwayDuring(m: Machine, u: nat, frame: Frame, inner: Frame, es: seq<Event>)
    requires Inv(m)
  {
    && u < MAX_TERMINAL && u != m.cur
    && (StepKeepsInv(m, Switch(u, frame, inner)); StaysAway(Step(m, Switch(u, frame, inner)).0, es, m.cur))
  }

  /** Whatever happens on the other terminals, switching back resumes exactly where this one was left. */
  lemma SwitchBackResumes(m: Machine, u: nat, frame: Frame, inner: Frame, es: seq<Event>, at: Frame, deeper: Frame)
    requires Inv(m) && AwayDuring(m, u, frame, inner, es)
    ensures Inv(Step(m, Switch(u, frame, inner)).0)
    ensures var m2 := Run(Step(m, Switch(u, frame, inner)).0, es);
            var (m3, control) := Step(m2, Switch(m.cur, at, deeper));
            && control == Resumes(frame, 0)
            && m3.cur == m.cur && m3.chains[m.cur] == m.chains[m.cur]
            && m3.mapped == Front(m).pid && m3.esp0 == StackTop(Front(m).pid)
  {
    SwitchLeaves(m, u, frame, inner);
    var m1 := Step(m, Switch(u, frame, inner)).0;
    RunKeepsAway(m1, es, m.cur);
    ReturnResumes(m, Run(m1, es), frame, at, deeper);
  }

  lemma SwitchLeaves(m: Machine, u: nat, frame: Frame, inner: Frame)
    requires Inv(m) && u < MAX_TERMINAL && u != m.cur
    ensures var m1 := Step(m, Switch(u, frame, inner)).0;
            Inv(m1) && m1.cur == u && m1.chains[m.cur] == m.chains[m.cur] && m1.left[m.cur] == Some(frame)
  {
    if m.chains[u] == [] {
      FirstSwitch(m, u, frame, inner);
    } else {
      LaterSwitch(m, u, frame, inner);
    }
  }

  lemma ReturnResumes(m: Machine, m2: Machine, frame: Frame, at: Frame, deeper: Frame)
    requires Inv(m) && Inv(m2) && m2.cur != m.cur
    requires m2.chains[m.cur] == m.chains[m.cur] && m2.left[m.cur] == Some(frame)
    ensures var (m3, control) := Step(m2, Switch(m.cur, at, deeper));
            && control == Resumes(frame, 0)
            && m3.cur == m.cur && m3.chains[m.cur] == m.chains[m.cur]
            && m3.mapped == Front(m).pid && m3.esp0 == StackTop(Front(m).pid)
  {
    LaterSwitch(m2, m.cur, at, deeper);
  }

  // ---------------------------------------------------------------------
  // Exit status
  // ---------------------------------------------------------------------

  /** The process in front is a base shell and dies by an exception. */
  ghost predicate BaseFault(m: Machine, e: Event)
    requires Inv(m)
  {
    e.Fault? && |m.chains[m.cur]| == 1
  }

  ghost predicate ChildEnds(m: Machine, e: Event)
    requires Inv(m)
  {
    (e.Fault? || e.Halt?) && |m.chains[m.cur]| > 1
  }

  /** The flag is up after an event exactly when a base shell has just died by an exception,
      or it was up and no child has ended. */
  lemma FlagIff(m: Machine, e: Event)
    requires Inv(m)
    ensures Step(m, e).0.flag == 1 <==> BaseFault(m, e) || (m.flag == 1 && !ChildEnds(m, e))
  {
    FrontIsBase(m);
  }

  /** What a parent sees when its child ends: 256 exactly when the child died by an exception, or halted
      with status 255 while the flag was up. */
  lemma ExitStatus(m: Machine, e: Event)
    requires Inv(m) && ChildEnds(m, e)
    ensures var control := Step(m, e).1;
            && control.Resumes?
            && (control.value == 256 <==> e.Fault? || (e.status % 256 == 255 && m.flag == 1))
            && (e.Halt? ==> control.value == e.status % 256 + m.flag)
  {
    FrontIsBase(m);
  }

  ghost predicate NoBaseFaults(m: Machine, es: seq<Event>)
    requires Inv(m)
    decreases |es|
  {
    es == [] || (!BaseFault(m, es[0]) && (StepKeepsInv(m, es[0]); NoBaseFaults(Step(m, es[0]).0, es[1..])))
  }

  /** While no base shell dies by an exception, a parent sees 256 exactly when its child did,
      and otherwise the status the child halted with. */
  lemma {:induction false} ExitStatusFaithful(m: Machine, es: seq<Event>, e: Event)
    requires Inv(m) && m.flag == 0 && NoBaseFaults(m, es) && ChildEnds(Run(m, es), e)
    ensures var control := Step(Run(m, es), e).1;
            && control.Resumes?
            && (control.value == 256 <==> e.Fault?)
            && (e.Halt? ==> control.value == e.status % 256)
    decreases |es|
  {
    if es == [] {
      ExitStatus(m, e);
    } else {
      FlagIff(m, es[0]);
      StepKeepsInv(m, es[0]);
      ExitStatusFaithful(Step(m, es[0]).0, es[1..], e);
    }
  }

  /** It fails otherwise: after a base shell has died by an exception, the next child to halt is seen with
      a status one too high, 256 for a 255. */
  lemma StaleFlag(m: Machine, a: Frame, b: Frame, c: Frame, status: nat)
    requires Inv(m) && |m.chains[m.cur]| == 1 && LowestFree(Busy(m.chains), 0) < MAX_PROCESSES
    ensures Inv(Step(m, Fault(a)).0) && Inv(Step(Step(m, Fault(a)).0, Execute(Executable, b)).0)
    ensures Step(Step(Step(m, Fault(a)).0, Execute(Executable, b)).0, Halt(status, c)).1
         == Resumes(b, status % 256 + 1)
  {
    Restart(m.(flag := 1), EXCEPTION_STATUS, a);
    var m1 := Step(m, Fault(a)).0;
    SamePids(m.chains, m1.chains);
    Start(m1, Executable, b, LowestFree(Busy(m1.chains), 0));
    ReturnToParent(Step(m1, Execute(Executable, b)).0, status, c);
  }

  lemma SamePids(a: seq<seq<Proc>>, b: seq<seq<Proc>>)
    requires |a| == |b| && forall t | 0 <= t < |a| :: |a[t]| == |b[t]|
    requires forall t, i | Place(a, t, i) :: a[t][i].pid == b[t][i].pid
    ensures Busy(a) == Busy(b)
  {
    forall p: nat
      ensures Taken(a, p) <==> Taken(b, p)
    {
      if InChain(a, p) {
        var t, i :| Place(a, t, i) && PidAt(a, t, i) == p;
        assert Place(b, t, i) && PidAt(b, t, i) == p;
      }
      if InChain(b, p) {
        var t, i :| Place(b, t, i) && PidAt(b, t, i) == p;
        assert Place(a, t, i) && PidAt(a, t, i) == p;
      }
    }
  }

  // ---------------------------------------------------------------------
  // Memory and kernel stack of the process in front
  // ---------------------------------------------------------------------

  /** The mapped memory is that of the process in front. */
  ghost predicate Coherent(m: Machine)
    requires Inv(m)
  {
    m.mapped == Front(m).pid
  }

  /** The kernel is entered at the top of the stack of the process in front. */
  ghost predicate AtTop(m: Machine)
    requires Inv(m)
  {
    m.esp0 == StackTop(Front(m).pid)
  }

  /** A file without the ELF magic that is given a slot. */
  ghost predicate TakesSlotInVain(m: Machine, e: Event)
    requires Inv(m)
  {
    e.Execute? && e.program == NotExecutable && LowestFree(Busy(m.chains), 0) < MAX_PROCESSES
  }

  /** A program is entered, or a terminal that was left before. */
  ghost predicate Loads(m: Machine, e: Event)
    requires Inv(m)
  {
    match e
    case Execute(program, _) => program == Executable && LowestFree(Busy(m.chains), 0) < MAX_PROCESSES
    case Halt(_, _) => |m.chains[m.cur]| == 1
    case Fault(_) => |m.chains[m.cur]| == 1
    case Switch(t, _, _) => t < MAX_TERMINAL && t != m.cur
  }

  /** A stack position that is not the top of a process's stack: every call and trap has put something there. */
  ghost predicate OffTops(esp: int) {
    forall p: nat | p < MAX_PROCESSES :: esp != StackTop(p)
  }

  ghost predicate FramesOffTops(e: Event) {
    OffTops(e.frame.esp) && (e.Switch? ==> OffTops(e.inner.esp))
  }

  /** No saved position is the top of a stack, and the kernel is entered at one only for a process of the chain. */
  ghost predicate TopInv(m: Machine)
    requires Inv(m)
  {
    && (forall p | 0 <= p < MAX_PROCESSES :: OffTops(m.launches[p].esp))
    && (OffTops(m.esp0) || exists i | Place(m.chains, m.cur, i) :: m.esp0 == StackTop(PidAt(m.chains, m.cur, i)))
  }

  /** What the two become when the event gives the processor to a program or a terminal. */
  lemma LoadsFront(m: Machine, e: Event)
    requires Inv(m) && Loads(m, e)
    ensures Inv(Step(m, e).0) && Coherent(Step(m, e).0) && AtTop(Step(m, e).0)
    ensures TopInv(m) && FramesOffTops(e) ==> TopInv(Step(m, e).0)
  {
    match e {
      case Execute(program, frame) => Start(m, program, frame, LowestFree(Busy(m.chains), 0));
      case Halt(status, frame) => Restart(m, status, frame);
      case Fault(frame) => Restart(m.(flag := 1), EXCEPTION_STATUS, frame);
      case Switch(t, frame, inner) => SwitchLoads(m, t, frame, inner);
    }
    FrontLoaded(Step(m, e).0);
  }

  lemma SwitchLoads(m: Machine, t: nat, frame: Frame, inner: Frame)
    requires Inv(m) && t < MAX_TERMINAL && t != m.cur
    ensures var m' := Step(m, Switch(t, frame, inner)).0;
            && Inv(m') && Coherent(m') && AtTop(m')
            && (m'.launches == m.launches || m'.launches == m.launches[t := inner])
  {
    if m.chains[t] == [] {
      FirstSwitch(m, t, frame, inner);
    } else {
      LaterSwitch(m, t, frame, inner);
    }
  }

  lemma FrontLoaded(m: Machine)
    requires Inv(m) && AtTop(m)
    ensures (forall p | 0 <= p < MAX_PROCESSES :: OffTops(m.launches[p].esp)) ==> TopInv(m)
  {
    var n := |m.chains[m.cur]| - 1;
    assert Place(m.chains, m.cur, n) && PidAt(m.chains, m.cur, n) == Front(m).pid;
  }

  /** ... when a child ends: the memory is the parent's, the kernel stack is not. */
  lemma EndLeavesTop(m: Machine, e: Event)
    requires Inv(m) && ChildEnds(m, e)
    ensures Inv(Step(m, e).0) && Coherent(Step(m, e).0)
    ensures TopInv(m) ==> TopInv(Step(m, e).0) && !AtTop(Step(m, e).0)
  {
    if e.Halt? {
      ReturnToParent(m, e.status, e.frame);
    } else {
      ReturnToParent(m.(flag := 1), EXCEPTION_STATUS, e.frame);
    }
  }

  /** ... when a slot is taken in vain: neither is that of the new process. */
  lemma VainLosesBoth(m: Machine, e: Event)
    requires Inv(m) && TakesSlotInVain(m, e)
    ensures Inv(Step(m, e).0) && !Coherent(Step(m, e).0)
    ensures TopInv(m) ==> TopInv(Step(m, e).0) && !AtTop(Step(m, e).0)
  {
    var p := LowestFree(Busy(m.chains), 0);
    Start(m, NotExecutable, e.frame, p);
    var m' := Step(m, e).0;
    assert Front(m').pid == p;
    forall i | Place(m.chains, m.cur, i)
      ensures Place(m'.chains, m.cur, i) && PidAt(m'.chains, m.cur, i) == PidAt(m.chains, m.cur, i) != p
    {
    }
  }

  /** Any other event leaves all of it as it is. */
  lemma OtherwiseSame(m: Machine, e: Event)
    requires Inv(m) && !Loads(m, e) && !ChildEnds(m, e) && !TakesSlotInVain(m, e)
    ensures Step(m, e).0 == m
  {
  }

  /** After an event the mapped memory is that of the process in front exactly when the event gave the processor to a
      program, a terminal or a parent, or when it was before and no slot was taken in vain. */
  lemma CoherenceIff(m: Machine, e: Event)
    requires Inv(m)
    ensures Inv(Step(m, e).0)
    ensures Coherent(Step(m, e).0) <==> Loads(m, e) || ChildEnds(m, e) || (Coherent(m) && !TakesSlotInVain(m, e))
  {
    if Loads(m, e) {
      LoadsFront(m, e);
    } else if ChildEnds(m, e) {
      EndLeavesTop(m, e);
    } else if TakesSlotInVain(m, e) {
      VainLosesBoth(m, e);
    } else {
      OtherwiseSame(m, e);
    }
  }

  /** After an event the kernel is entered at the top of the stack of the process in front exactly when the event gave the
      processor to a program or a terminal, or when it was so before, no child ended and no slot was taken in vain. */
  lemma TopIff(m: Machine, e: Event)
    requires Inv(m) && TopInv(m) && FramesOffTops(e)
    ensures Inv(Step(m, e).0) && TopInv(Step(m, e).0)
    ensures AtTop(Step(m, e).0) <==> Loads(m, e) || (AtTop(m) && !ChildEnds(m, e) && !TakesSlotInVain(m, e))
  {
    if Loads(m, e) {
      LoadsFront(m, e);
    } else if ChildEnds(m, e) {
      EndLeavesTop(m, e);
    } else if TakesSlotInVain(m, e) {
      VainLosesBoth(m, e);
    } else {
      OtherwiseSame(m, e);
    }
  }

  ghost predicate AllExecutable(es: seq<Event>) {
    forall i | 0 <= i < |es| :: es[i].Execute? ==> es[i].program != NotExecutable
  }

  /** Over every run in which each file executed has the magic, the mapped memory is that of the process in front. */
  lemma {:induction false} RunStaysCoherent(m: Machine, es: seq<Event>)
    requires Inv(m) && Coherent(m) && AllExecutable(es)
    ensures Coherent(Run(m, es))
    decreases |es|
  {
    if es != [] {
      CoherenceIff(m, es[0]);
      RunStaysCoherent(Step(m, es[0]).0, es[1..]);
    }
  }

  // ---------------------------------------------------------------------
  // When a run ends with the flag up, the right memory and the right stack
  // ---------------------------------------------------------------------

  /** Three things a state may have: the exception flag up, the memory of the process in front, its kernel stack. */
  datatype Quality = FlagUp | OwnMemory | OwnStack

  ghost predicate Has(x: Quality, m: Machine)
    requires Inv(m)
  {
    match x
    case FlagUp => m.flag == 1
    case OwnMemory => Coherent(m)
    case OwnStack => AtTop(m)
  }

  /** Which events bring it about, and which end it. */
  ghost predicate Brings(x: Quality, m: Machine, e: Event)
    requires Inv(m)
  {
    match x
    case FlagUp => BaseFault(m, e)
    case OwnMemory => Loads(m, e) || ChildEnds(m, e)
    case OwnStack => Loads(m, e)
  }

  ghost predicate Ends(x: Quality, m: Machine, e: Event)
    requires Inv(m)
  {
    match x
    case FlagUp => ChildEnds(m, e)
    case OwnMemory => TakesSlotInVain(m, e)
    case OwnStack => ChildEnds(m, e) || TakesSlotInVain(m, e)
  }

  ghost predicate Sound(x: Quality, m: Machine, es: seq<Event>)
    requires Inv(m)
  {
    x == OwnStack ==> TopInv(m) && forall i | 0 <= i < |es| :: FramesOffTops(es[i])
  }

  lemma HasIff(x: Quality, m: Machine, e: Event)
    requires Inv(m) && (x == OwnStack ==> TopInv(m) && FramesOffTops(e))
    ensures Inv(Step(m, e).0) && (x == OwnStack ==> TopInv(Step(m, e).0))
    ensures Has(x, Step(m, e).0) <==> Brings(x, m, e) || (Has(x, m) && !Ends(x, m, e))
  {
    StepKeepsInv(m, e);
    match x
    case FlagUp => FlagIff(m, e);
    case OwnMemory => CoherenceIff(m, e);
    case OwnStack => TopIff(m, e);
  }

  /** Event `i` of a run brings it about, or ends it. */
  ghost predicate BringsAt(x: Quality, m: Machine, es: seq<Event>, i: nat)
    requires Inv(m) && i < |es|
  {
    Brings(x, Run(m, es[..i]), es[i])
  }

  ghost predicate EndsAt(x: Quality, m: Machine, es: seq<Event>, i: nat)
    requires Inv(m) && i < |es|
  {
    Ends(x, Run(m, es[..i]), es[i])
  }

  /** No event of the run from number `i` on ends it. */
  ghost predicate Lasts(x: Quality, m: Machine, es: seq<Event>, i: nat)
    requires Inv(m)
  {
    forall j: nat | i <= j < |es| :: !EndsAt(x, m, es, j)
  }

  lemma {:induction false} RunAppend(m: Machine, es: seq<Event>, e: Event)
    requires Inv(m)
    ensures Run(m, es + [e]) == Step(Run(m, es), e).0
    decreases |es|
  {
    if es == [] {
      assert es + [e] == [e] && [e][1..] == [];
      StepKeepsInv(m, e);
      assert Run(Step(m, e).0, []) == Step(m, e).0;
    } else {
      StepKeepsInv(m, es[0]);
      assert (es + [e])[1..] == es[1..] + [e];
      RunAppend(Step(m, es[0]).0, es[1..], e);
    }
  }

  lemma SamePrefix(x: Quality, m: Machine, es: seq<Event>, e: Event, i: nat)
    requires Inv(m) && i < |es|
    ensures BringsAt(x, m, es + [e], i) <==> BringsAt(x, m, es, i)
    ensures EndsAt(x, m, es + [e], i) <==> EndsAt(x, m, es, i)
  {
    assert (es + [e])[..i] == es[..i];
  }

  /** A run ends in a state that has it exactly when some event brought it about and none after it ended it, or when the
      first state had it and no event ended it. */
  lemma {:induction false} RunEndsWith(x: Quality, m: Machine, es: seq<Event>)
    requires Inv(m) && Sound(x, m, es)
    ensures x == OwnStack ==> TopInv(Run(m, es))
    ensures Has(x, Run(m, es)) <==>
            (Has(x, m) && Lasts(x, m, es, 0)) || exists i: nat | i < |es| :: BringsAt(x, m, es, i) && Lasts(x, m, es, i + 1)
    decreases |es|
  {
    if es != [] {
      var n := |es| - 1;
      var front, e := es[..n], es[n];
      assert es == front + [e];
      RunEndsWith(x, m, front);
      RunAppend(m, front, e);
      HasIff(x, Run(m, front), e);
      LastEvent(x, m, front, e);
    }
  }

  lemma LastEvent(x: Quality, m: Machine, front: seq<Event>, e: Event)
    requires Inv(m)
    ensures var es := front + [e];
            && (BringsAt(x, m, es, |front|) <==> Brings(x, Run(m, front), e))
            && (forall i: nat | i <= |front| :: Lasts(x, m, es, i) <==> Lasts(x, m, front, i) && !Ends(x, Run(m, front), e))
            && (forall i: nat | i < |front| :: BringsAt(x, m, es, i) <==> BringsAt(x, m, front, i))
            && Lasts(x, m, es, |front| + 1)
  {
    var es := front + [e];
    assert es[..|front|] == front && es[|front|] == e;
    assert EndsAt(x, m, es, |front|) <==> Ends(x, Run(m, front), e);
    forall i: nat | i < |front|
      ensures BringsAt(x, m, es, i) <==> BringsAt(x, m, front, i)
      ensures EndsAt(x, m, es, i) <==> EndsAt(x, m, front, i)
    {
      SamePrefix(x, m, front, e, i);
    }
  }
}
