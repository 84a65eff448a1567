/** The global arrays of student-distrib/syscall.c and terminal.c, proved to behave as the machine of chains. */
module Controller {
  import opened Bytes
  import opened Machines
  import opened Paging

  datatype Pcb = Pcb(processId: int, parentId: int, launch: Frame, resume: Frame)

  // ---------------------------------------------------------------------
  // The arrays a machine is held in
  // ---------------------------------------------------------------------

  /** `in_use` marks the slots of `busy`. */
  ghost predicate Marks(inUse: seq<bool>, busy: set<nat>) {
    |inUse| == MAX_PROCESSES && forall p: nat | p < MAX_PROCESSES :: inUse[p] <==> p in busy
  }

  /** The PCB of the process at depth `i` of chain `t`. */
  ghost predicate PcbFits(chains: seq<seq<Proc>>, t: int, i: int, pcbs: seq<Pcb>, known: set<nat>)
    requires |pcbs| == MAX_PROCESSES && Place(chains, t, i)
  {
    var p := PidAt(chains, t, i);
    && p < MAX_PROCESSES && p in known
    && pcbs[p].processId == p
    && pcbs[p].parentId == (if i == 0 then -1 else chains[t][i - 1].pid)
  }

  /** The PCBs hold the stack positions that `halt` goes back to. */
  ghost predicate LaunchesHeld(launches: seq<Frame>, pcbs: seq<Pcb>) {
    |launches| == |pcbs| == MAX_PROCESSES && forall p | 0 <= p < MAX_PROCESSES :: pcbs[p].launch == launches[p]
  }

  ghost predicate PcbsFit(chains: seq<seq<Proc>>, pcbs: seq<Pcb>, known: set<nat>) {
    |pcbs| == MAX_PROCESSES && forall t, i | Place(chains, t, i) :: PcbFits(chains, t, i, pcbs, known)
  }

  ghost function FrontPid(chain: seq<Proc>): (p: int) {
    if chain == [] then -1 else chain[|chain| - 1].pid
  }

  /** ... and every terminal in the background keeps its stack position in the PCB in front. */
  ghost predicate ResumesFit(m: Machine, pcbs: seq<Pcb>)
    requires Inv(m)
  {
    |pcbs| == MAX_PROCESSES &&
    forall t | 0 <= t < MAX_TERMINAL && t != m.cur && m.chains[t] != [] ::
      0 <= FrontPid(m.chains[t]) < MAX_PROCESSES && pcbs[FrontPid(m.chains[t])].resume == m.left[t].value
  }

  ghost predicate CurrentFits(chains: seq<seq<Proc>>, currentProcess: seq<int>) {
    |chains| == |currentProcess| == MAX_TERMINAL &&
    forall t | 0 <= t < MAX_TERMINAL :: currentProcess[t] == FrontPid(chains[t])
  }

  // ---------------------------------------------------------------------
  // How the arrays follow the chains
  // ---------------------------------------------------------------------

  lemma FrontPlace(chains: seq<seq<Proc>>, t: nat)
    requires ChainsInv(chains) && t < MAX_TERMINAL && chains[t] != []
    ensures Place(chains, t, |chains[t]| - 1) && FrontPid(chains[t]) == PidAt(chains, t, |chains[t]| - 1)
    ensures 0 <= FrontPid(chains[t]) < MAX_PROCESSES
  {
  }

  /** Slots after a process is put in front of a chain. */
  lemma BusyAfterPush(chains: seq<seq<Proc>>, t: nat, proc: Proc, chains': seq<seq<Proc>>)
    requires ChainsInv(chains) && t < MAX_TERMINAL && chains[t] != [] && proc.pid < MAX_PROCESSES
    requires chains' == chains[t := chains[t] + [proc]]
    ensures Busy(chains') == Busy(chains) + {proc.pid}
  {
    forall p: nat | p < MAX_PROCESSES
      ensures Taken(chains', p) <==> Taken(chains, p) || p == proc.pid
    {
      if InChain(chains, p) {
        var u, j :| Place(chains, u, j) && PidAt(chains, u, j) == p;
        assert Place(chains', u, j) && PidAt(chains', u, j) == p;
      }
      if InChain(chains', p) && p != proc.pid {
        var u, j :| Place(chains', u, j) && PidAt(chains', u, j) == p;
        assert Place(chains, u, j) && PidAt(chains, u, j) == p;
      }
      assert Place(chains', t, |chains[t]|) && PidAt(chains', t, |chains[t]|) == proc.pid;
    }
  }

  /** Slots after the process in front has ended. */
  lemma BusyAfterPop(chains: seq<seq<Proc>>, t: nat, chains': seq<seq<Proc>>)
    requires ChainsInv(chains) && t < MAX_TERMINAL && |chains[t]| > 1
    requires chains' == chains[t := chains[t][..|chains[t]| - 1]]
    ensures Busy(chains') == Busy(chains) - {chains[t][|chains[t]| - 1].pid}
  {
    var n := |chains[t]| - 1;
    assert Place(chains, t, n);
    forall p: nat | p < MAX_PROCESSES
      ensures Taken(chains', p) <==> Taken(chains, p) && p != PidAt(chains, t, n)
    {
      if InChain(chains, p) && p != PidAt(chains, t, n) {
        var u, j :| Place(chains, u, j) && PidAt(chains, u, j) == p;
        assert Place(chains', u, j) && PidAt(chains', u, j) == p;
      }
      if InChain(chains', p) {
        var u, j :| Place(chains', u, j) && PidAt(chains', u, j) == p;
        assert Place(chains, u, j) && PidAt(chains, u, j) == p;
      }
    }
  }

  /** Slots after a base shell is started. */
  lemma BusyAfterBase(chains: seq<seq<Proc>>, t: nat, proc: Proc, chains': seq<seq<Proc>>)
    requires ChainsInv(chains) && t < MAX_TERMINAL && |chains[t]| <= 1 && proc.pid == t
    requires chains' == chains[t := [proc]]
    ensures Busy(chains') == Busy(chains) && t in Busy(chains)
  {
    forall p: nat | p < MAX_PROCESSES
      ensures Taken(chains', p) <==> Taken(chains, p)
      ensures p == t ==> Taken(chains, p)
    {
      if InChain(chains, p) {
        var u, j :| Place(chains, u, j) && PidAt(chains, u, j) == p;
        assert Place(chains', u, j) && PidAt(chains', u, j) == p;
      }
      if InChain(chains', p) && p != t {
        var u, j :| Place(chains', u, j) && PidAt(chains', u, j) == p;
        assert Place(chains, u, j) && PidAt(chains, u, j) == p;
      }
      assert Place(chains', t, 0) && PidAt(chains', t, 0) == t;
      assert chains[t] != [] ==> Place(chains, t, 0) && PidAt(chains, t, 0) == t;
    }
  }

  /** A PCB no chain refers to can be overwritten. */
  lemma PcbsAfterPush(chains: seq<seq<Proc>>, t: nat, proc: Proc, chains': seq<seq<Proc>>,
                      pcbs: seq<Pcb>, pcb: Pcb, known: set<nat>)
    requires ChainsInv(chains) && t < MAX_TERMINAL && chains[t] != [] && PcbsFit(chains, pcbs, known)
    requires proc.pid < MAX_PROCESSES && !InChain(chains, proc.pid)
    requires chains' == chains[t := chains[t] + [proc]]
    requires pcb.processId == proc.pid && pcb.parentId == FrontPid(chains[t])
    ensures PcbsFit(chains', pcbs[proc.pid := pcb], known + {proc.pid})
  {
    forall u, j | Place(chains', u, j)
      ensures PcbFits(chains', u, j, pcbs[proc.pid := pcb], known + {proc.pid})
    {
      if !(u == t && j == |chains[t]|) {
        assert Place(chains, u, j) && PcbFits(chains, u, j, pcbs, known);
        assert PidAt(chains, u, j) != proc.pid;
      }
    }
  }

  lemma PcbsAfterPop(chains: seq<seq<Proc>>, t: nat, chains': seq<seq<Proc>>, pcbs: seq<Pcb>, known: set<nat>)
    requires ChainsInv(chains) && t < MAX_TERMINAL && |chains[t]| > 1 && PcbsFit(chains, pcbs, known)
    requires chains' == chains[t := chains[t][..|chains[t]| - 1]]
    ensures PcbsFit(chains', pcbs, known)
  {
    forall u, j | Place(chains', u, j)
      ensures PcbFits(chains', u, j, pcbs, known)
    {
      assert Place(chains, u, j) && PcbFits(chains, u, j, pcbs, known);
    }
  }

  lemma PcbsAfterBase(chains: seq<seq<Proc>>, t: nat, proc: Proc, chains': seq<seq<Proc>>,
                      pcbs: seq<Pcb>, pcb: Pcb, known: set<nat>)
    requires ChainsInv(chains) && t < MAX_TERMINAL && |chains[t]| <= 1 && PcbsFit(chains, pcbs, known)
    requires chains' == chains[t := [proc]] && proc.pid == t
    requires pcb.processId == t && pcb.parentId == -1
    ensures PcbsFit(chains', pcbs[t := pcb], known + {t})
  {
    forall u, j | Place(chains', u, j)
      ensures PcbFits(chains', u, j, pcbs[t := pcb], known + {t})
    {
      if u != t {
        assert Place(chains, u, j) && PcbFits(chains, u, j, pcbs, known);
        assert PidAt(chains, u, j) != t;
      }
    }
  }

  /** Backgrounded terminals do not notice a change to the PCB of slot `p`, which is not in front of any of them. */
  lemma ResumesAfter(m: Machine, m': Machine, pcbs: seq<Pcb>, p: nat, pcb: Pcb)
    requires Inv(m) && Inv(m') && ResumesFit(m, pcbs) && p < MAX_PROCESSES && m'.cur == m.cur && m'.left == m.left
    requires forall t | 0 <= t < MAX_TERMINAL && t != m.cur :: m'.chains[t] == m.chains[t]
    requires forall t | 0 <= t < MAX_TERMINAL && t != m.cur && m.chains[t] != [] :: FrontPid(m.chains[t]) != p
    ensures ResumesFit(m', pcbs[p := pcb])
  {
  }

  /** A slot that is free, or the base slot of the current terminal, is not in front of another terminal. */
  lemma NotInFront(m: Machine, p: nat)
    requires Inv(m) && (!InChain(m.chains, p) || p == m.cur)
    ensures forall t | 0 <= t < MAX_TERMINAL && t != m.cur && m.chains[t] != [] :: FrontPid(m.chains[t]) != p
  {
    forall t | 0 <= t < MAX_TERMINAL && t != m.cur && m.chains[t] != []
      ensures FrontPid(m.chains[t]) != p
    {
      FrontPlace(m.chains, t);
      FrontPlace(m.chains, m.cur);
      assert Place(m.chains, m.cur, 0);
      assert PidAt(m.chains, m.cur, 0) == m.cur;
    }
  }

  /** The arrays after a program is started in a free slot. */
  lemma PushFits(m: Machine, m': Machine, proc: Proc, pcb: Pcb,
                 currentProcess: seq<int>, inUse: seq<bool>, known: set<nat>, pcbs: seq<Pcb>)
    requires Inv(m) && Inv(m') && CurrentFits(m.chains, currentProcess) && Marks(inUse, Busy(m.chains))
    requires PcbsFit(m.chains, pcbs, known) && ResumesFit(m, pcbs)
    requires proc.pid < MAX_PROCESSES && !InChain(m.chains, proc.pid)
    requires m'.chains == m.chains[m.cur := m.chains[m.cur] + [proc]] && m'.cur == m.cur && m'.left == m.left
    requires pcb.processId == proc.pid && pcb.parentId == FrontPid(m.chains[m.cur])
    ensures CurrentFits(m'.chains, currentProcess[m.cur := proc.pid])
    ensures Marks(inUse[proc.pid := true], Busy(m'.chains))
    ensures PcbsFit(m'.chains, pcbs[proc.pid := pcb], known + {proc.pid})
    ensures ResumesFit(m', pcbs[proc.pid := pcb])
  {
    BusyAfterPush(m.chains, m.cur, proc, m'.chains);
    PcbsAfterPush(m.chains, m.cur, proc, m'.chains, pcbs, pcb, known);
    NotInFront(m, proc.pid);
    ResumesAfter(m, m', pcbs, proc.pid, pcb);
  }

  /** ... by the `execute` system call. */
  lemma ExecuteFits(m: Machine, m': Machine, program: Program, frame: Frame, p: nat, pcb: Pcb,
                    currentProcess: seq<int>, inUse: seq<bool>, known: set<nat>, pcbs: seq<Pcb>)
    requires Inv(m) && CurrentFits(m.chains, currentProcess) && Marks(inUse, Busy(m.chains))
    requires PcbsFit(m.chains, pcbs, known) && ResumesFit(m, pcbs) && LaunchesHeld(m.launches, pcbs)
    requires program != Missing && p == LowestFree(Busy(m.chains), 0) < MAX_PROCESSES
    requires m' == Step(m, Execute(program, frame)).0
    requires pcb.processId == p && pcb.parentId == currentProcess[m.cur]
    requires pcb.launch == if program == Executable then frame else pcbs[p].launch
    ensures p >= MAX_TERMINAL && Inv(m') && m'.cur == m.cur && m'.flag == m.flag
    ensures if program == Executable then m'.mapped == p && m'.esp0 == StackTop(p) && Step(m, Execute(program, frame)).1 == Enters(p)
            else m'.mapped == m.mapped && m'.esp0 == m.esp0 && Step(m, Execute(program, frame)).1 == Returns(-1)
    ensures CurrentFits(m'.chains, currentProcess[m.cur := p]) && Marks(inUse[p := true], Busy(m'.chains))
    ensures PcbsFit(m'.chains, pcbs[p := pcb], known + {p}) && ResumesFit(m', pcbs[p := pcb])
    ensures LaunchesHeld(m'.launches, pcbs[p := pcb])
  {
    Start(m, program, frame, p);
    PushFits(m, m', Proc(p, frame, program == Executable), pcb, currentProcess, inUse, known, pcbs);
  }

  /** ... after a base shell is started on the terminal that is current in `m'`. */
  lemma BaseFits(m: Machine, m': Machine, proc: Proc, pcb: Pcb,
                 currentProcess: seq<int>, inUse: seq<bool>, known: set<nat>, pcbs: seq<Pcb>)
    requires ChainsInv(m.chains) && Inv(m') && CurrentFits(m.chains, currentProcess)
    requires |inUse| == MAX_PROCESSES && Marks(inUse[m'.cur := true], Busy(m.chains)) && PcbsFit(m.chains, pcbs, known)
    requires |m.chains[m'.cur]| <= 1 && proc.pid == m'.cur && m'.chains == m.chains[m'.cur := [proc]]
    requires forall t | 0 <= t < MAX_TERMINAL && t != m'.cur && m.chains[t] != [] ::
               0 <= FrontPid(m.chains[t]) < MAX_PROCESSES && pcbs[FrontPid(m.chains[t])].resume == m'.left[t].value
    requires pcb.processId == m'.cur && pcb.parentId == -1
    ensures CurrentFits(m'.chains, currentProcess[m'.cur := proc.pid])
    ensures Marks(inUse[proc.pid := true], Busy(m'.chains))
    ensures PcbsFit(m'.chains, pcbs[proc.pid := pcb], known + {proc.pid})
    ensures ResumesFit(m', pcbs[proc.pid := pcb])
  {
    BusyAfterBase(m.chains, m'.cur, proc, m'.chains);
    PcbsAfterBase(m.chains, m'.cur, proc, m'.chains, pcbs, pcb, known);
    NotInFront(m', m'.cur);
  }

  /** Giving up the base slot of a terminal makes it the one the search finds. */
  lemma GivenUp(chains: seq<seq<Proc>>, t: nat, inUse: seq<bool>)
    requires ChainsInv(chains) && t < MAX_TERMINAL && Marks(inUse, Busy(chains))
    ensures Marks(inUse[t := false], Busy(chains) - {t}) && LowestFree(Busy(chains) - {t}, 0) == t
    ensures inUse[t := false][t := true] == inUse && inUse[t]
  {
    BaseSlots(chains, t);
  }

  /** ... when the base shell of the current terminal is halted. */
  lemma RestartFits(m: Machine, m': Machine, frame: Frame, pcb: Pcb,
                    currentProcess: seq<int>, inUse: seq<bool>, known: set<nat>, pcbs: seq<Pcb>)
    requires Inv(m) && |m.chains[m.cur]| == 1 && m' == HaltStep(m, 0, frame).0
    requires CurrentFits(m.chains, currentProcess) && Marks(inUse, Busy(m.chains))
    requires PcbsFit(m.chains, pcbs, known) && ResumesFit(m, pcbs)
    requires pcb.processId == m.cur && pcb.parentId == -1
    ensures forall status: nat :: HaltStep(m, status, frame) == (m', Enters(m.cur))
    ensures Inv(m') && m'.cur == m.cur == m'.mapped && m'.flag == m.flag
    ensures m'.launches == m.launches[m.cur := frame] && m'.esp0 == StackTop(m.cur)
    ensures CurrentFits(m'.chains, currentProcess[m.cur := m.cur]) && Marks(inUse, Busy(m'.chains))
    ensures PcbsFit(m'.chains, pcbs[m.cur := pcb], known + {m.cur}) && ResumesFit(m', pcbs[m.cur := pcb])
  {
    Restart(m, 0, frame);
    forall status: nat
      ensures HaltStep(m, status, frame) == (m', Enters(m.cur))
    {
      Restart(m, status, frame);
    }
    GivenUp(m.chains, m.cur, inUse);
    BaseFits(m, m', Proc(m.cur, frame, true), pcb, currentProcess, inUse[m.cur := false], known, pcbs);
  }

  /** ... when a terminal is used for the first time; `pcbs` already holds the position of the terminal left behind. */
  lemma FirstSwitchFits(m: Machine, m': Machine, t: nat, frame: Frame, inner: Frame, pcb: Pcb,
                        currentProcess: seq<int>, inUse: seq<bool>, known: set<nat>, pcbs: seq<Pcb>)
    requires Inv(m) && t < MAX_TERMINAL && t != m.cur && m.chains[t] == []
    requires m' == Step(m, Switch(t, frame, inner)).0
    requires CurrentFits(m.chains, currentProcess) && Marks(inUse, Busy(m.chains)) && PcbsFit(m.chains, pcbs, known)
    requires forall u | 0 <= u < MAX_TERMINAL && m.chains[u] != [] ::
               && 0 <= FrontPid(m.chains[u]) < MAX_PROCESSES
               && pcbs[FrontPid(m.chains[u])].resume == (if u == m.cur then frame else m.left[u].value)
    requires pcb.processId == t && pcb.parentId == -1
    ensures Step(m, Switch(t, frame, inner)).1 == Enters(t)
    ensures Inv(m') && m'.cur == t == m'.mapped && m'.flag == m.flag
    ensures m'.launches == m.launches[t := inner] && m'.esp0 == StackTop(t)
    ensures CurrentFits(m'.chains, currentProcess[t := t]) && Marks(inUse, Busy(m'.chains))
    ensures PcbsFit(m'.chains, pcbs[t := pcb], known + {t}) && ResumesFit(m', pcbs[t := pcb])
  {
    FirstSwitch(m, t, frame, inner);
    GivenUp(m.chains, t, inUse);
    BaseFits(m, m', Proc(t, inner, true), pcb, currentProcess, inUse[t := false], known, pcbs);
  }

  /** ... when a terminal is switched to again. */
  lemma LaterSwitchFits(m: Machine, m': Machine, t: nat, frame: Frame, inner: Frame, currentProcess: seq<int>, pcbs: seq<Pcb>)
    requires Inv(m) && t < MAX_TERMINAL && t != m.cur && m.chains[t] != []
    requires m' == Step(m, Switch(t, frame, inner)).0 && CurrentFits(m.chains, currentProcess) && |pcbs| == MAX_PROCESSES
    requires forall u | 0 <= u < MAX_TERMINAL && m.chains[u] != [] ::
               && 0 <= FrontPid(m.chains[u]) < MAX_PROCESSES
               && pcbs[FrontPid(m.chains[u])].resume == (if u == m.cur then frame else m.left[u].value)
    ensures Inv(m') && ResumesFit(m', pcbs)
    ensures m'.cur == t && m'.chains == m.chains && m'.launches == m.launches && m'.flag == m.flag
    ensures m'.mapped == currentProcess[t] < MAX_PROCESSES && m'.esp0 == StackTop(m'.mapped)
    ensures Step(m, Switch(t, frame, inner)).1 == Resumes(pcbs[m'.mapped].resume, 0)
  {
    LaterSwitch(m, t, frame, inner);
  }

  /** ... after the process in front has given way to its parent. */
  lemma PopFits(m: Machine, m': Machine, currentProcess: seq<int>, inUse: seq<bool>, known: set<nat>, pcbs: seq<Pcb>)
    requires Inv(m) && Inv(m') && CurrentFits(m.chains, currentProcess) && Marks(inUse, Busy(m.chains))
    requires PcbsFit(m.chains, pcbs, known) && ResumesFit(m, pcbs) && |m.chains[m.cur]| > 1
    requires m'.chains == m.chains[m.cur := m.chains[m.cur][..|m.chains[m.cur]| - 1]]
    requires m'.cur == m.cur && m'.left == m.left
    ensures Front(m).pid < MAX_PROCESSES && Front(m).pid in known && pcbs[Front(m).pid].processId == Front(m).pid
    ensures var parent := pcbs[Front(m).pid].parentId;
            && parent == Front(m').pid && parent < MAX_PROCESSES && parent in known
            && CurrentFits(m'.chains, currentProcess[m.cur := parent])
    ensures Marks(inUse[Front(m).pid := false], Busy(m'.chains))
    ensures PcbsFit(m'.chains, pcbs, known)
    ensures ResumesFit(m', pcbs)
  {
    var n := |m.chains[m.cur]| - 1;
    assert Place(m.chains, m.cur, n) && PcbFits(m.chains, m.cur, n, pcbs, known);
    assert Place(m.chains, m.cur, n - 1) && PcbFits(m.chains, m.cur, n - 1, pcbs, known);
    BusyAfterPop(m.chains, m.cur, m'.chains);
    PcbsAfterPop(m.chains, m.cur, m'.chains, pcbs, known);
  }

  // ---------------------------------------------------------------------
  // The controller
  // ---------------------------------------------------------------------

  class Controller {
    var currTerminal: nat
    var currentProcess: seq<int>
    var inUse: seq<bool>
    /** The indices at which `process_array` is not null; entry `p` then points at `pcbs[p]`. */
    var known: set<nat>
    var pcbs: seq<Pcb>
    var exceptionFlag: int
    var directory32: int
    var esp0: int
    ghost var m: Machine

    ghost predicate Valid()
      reads this
    {
      && Inv(m)
      && currTerminal == m.cur && exceptionFlag == m.flag && m.mapped < MAX_PROCESSES
      && directory32 == ProcessEntry(m.mapped) && esp0 == m.esp0
      && LaunchesHeld(m.launches, pcbs)
      && CurrentFits(m.chains, currentProcess)
      && Marks(inUse, Busy(m.chains))
      && PcbsFit(m.chains, pcbs, known)
      && ResumesFit(m, pcbs)
    }

    /** `pc_init`, `terminal_init` and the first `execute ("shell")`; the PCB memory holds anything. */
    constructor (memory: seq<Pcb>, frame: Frame)
      requires |memory| == MAX_PROCESSES
      ensures Valid() && m == Booted(memory, frame)
    {
      currTerminal := 0;
      currentProcess := [-1, -1, -1];
      inUse := [false, true, true, false, false, false, false, false];
      known := {};
      pcbs := memory;
      exceptionFlag := 0;
      esp0 := K_STACK_BOTTOM;
      directory32 := 2;
      m := Booted(memory, frame);
      new;
      IdleSlots(inUse);
      var c := ExecuteProgram(Executable, frame, {1, 2});
      BootedInv(memory, frame);
      BaseFits(m.(chains := IDLE), m, Proc(0, frame, true), pcbs[0], [-1, -1, -1],
               [false, true, true, false, false, false, false, false], {}, memory);
    }

    /** `execute`, from the slot search on, with the slots of `busy` in use. */
    method ExecuteProgram(program: Program, frame: Frame, ghost busy: set<nat>) returns (c: Control)
      requires currTerminal < |currentProcess| && |pcbs| == MAX_PROCESSES && Marks(inUse, busy)
      modifies this`currentProcess, this`inUse, this`known, this`pcbs, this`directory32, this`esp0
      ensures var p := LowestFree(busy, 0);
              if program == Missing || p == MAX_PROCESSES then
                && c == Returns(-1)
                && currentProcess == old(currentProcess) && inUse == old(inUse) && known == old(known)
                && pcbs == old(pcbs) && directory32 == old(directory32) && esp0 == old(esp0)
              else
                && inUse == old(inUse)[p := true]
                && known == old(known) + {p}
                && pcbs == old(pcbs)[p := old(pcbs)[p].(processId := p,
                     parentId := if p < MAX_TERMINAL then -1 else old(currentProcess)[currTerminal],
                     launch := if program == Executable then frame else old(pcbs)[p].launch)]
                && currentProcess == old(currentProcess)[currTerminal := p]
                && if program == Executable then
                     c == Enters(p) && directory32 == ProcessEntry(p) && esp0 == StackTop(p)
                   else
                     c == Returns(-1) && directory32 == old(directory32) && esp0 == old(esp0)
    {
      if program == Missing {
        return Returns(-1);
      }
      var i := 0;
      while i < MAX_PROCESSES && inUse[i]
        invariant 0 <= i <= MAX_PROCESSES && LowestFree(busy, 0) == LowestFree(busy, i)
      {
        i := i + 1;
      }
      if i >= MAX_PROCESSES {
        return Returns(-1);
      }
      inUse := inUse[i := true];
      known := known + {i};
      var pcb := pcbs[i].(processId := i);
      if i < MAX_TERMINAL {
        pcb := pcb.(parentId := -1);
      } else {
        pcb := pcb.(parentId := currentProcess[currTerminal]);
      }
      currentProcess := currentProcess[currTerminal := i];
      if program == Executable {
        directory32 := ProcessEntry(i);
        esp0 := StackTop(i);
        pcb := pcb.(launch := frame);
        c := Enters(i);
      } else {
        c := Returns(-1);
      }
      pcbs := pcbs[i := pcb];
    }

    /** ... when the slot it finds is the base slot of terminal `t`. */
    method StartShell(frame: Frame, ghost busy: set<nat>, ghost t: nat) returns (c: Control)
      requires currTerminal < |currentProcess| && |pcbs| == MAX_PROCESSES && Marks(inUse, busy)
      requires LowestFree(busy, 0) == t < MAX_TERMINAL
      modifies this`currentProcess, this`inUse, this`known, this`pcbs, this`directory32, this`esp0
      ensures c == Enters(t) && directory32 == ProcessEntry(t) && esp0 == StackTop(t)
      ensures inUse == old(inUse)[t := true] && known == old(known) + {t}
      ensures pcbs == old(pcbs)[t := old(pcbs)[t].(processId := t, parentId := -1, launch := frame)]
      ensures currentProcess == old(currentProcess)[currTerminal := t]
    {
      c := ExecuteProgram(Executable, frame, busy);
    }

    /** The `execute` system call. */
    method Execute(program: Program, frame: Frame) returns (c: Control)
      requires Valid()
      modifies this
      ensures Valid() && (m, c) == Step(old(m), Event.Execute(program, frame))
    {
      ghost var busy := Busy(m.chains);
      ghost var p, m' := LowestFree(busy, 0), Step(m, Event.Execute(program, frame)).0;
      BaseSlots(m.chains, m.cur);
      c := ExecuteProgram(program, frame, busy);
      if program != Missing && p < MAX_PROCESSES {
        ExecuteFits(m, m', program, frame, p, pcbs[p], old(currentProcess), old(inUse), old(known), old(pcbs));
        m := m';
      }
    }

    /** `halt`. */
    method Halt(status: nat, frame: Frame) returns (c: Control)
      requires Valid()
      modifies this
      ensures Valid() && (m, c) == HaltStep(old(m), status, frame)
    {
      FrontIsBase(m);
      FrontFits();
      var current := currentProcess[currTerminal];
      if pcbs[current].processId < MAX_TERMINAL {
        c := RestartShell(frame);
      } else {
        ReturnToParent(m, status, frame);
        ghost var m' := HaltStep(m, status, frame).0;
        PopFits(m, m', currentProcess, inUse, known, pcbs);
        var extended := status % 256 + exceptionFlag;
        exceptionFlag := 0;
        var launch := pcbs[current].launch;
        inUse := inUse[current := false];
        currentProcess := currentProcess[currTerminal := pcbs[current].parentId];
        directory32 := ProcessEntry(currentProcess[currTerminal]);
        esp0 := pcbs[currentProcess[currTerminal]].launch.esp;
        m := m';
        c := Resumes(launch, extended);
      }
    }

    lemma FrontFits()
      requires Valid()
      ensures var p := currentProcess[currTerminal];
              && p == Front(m).pid && 0 <= p < MAX_PROCESSES && p in known && pcbs[p].processId == p
    {
      var n := |m.chains[m.cur]| - 1;
      assert Place(m.chains, m.cur, n) && PcbFits(m.chains, m.cur, n, pcbs, known);
    }

    /** The restart branch of `halt`: the slot is given up and found again. */
    method RestartShell(frame: Frame) returns (c: Control)
      requires Valid() && |m.chains[m.cur]| == 1
      modifies this
      ensures Valid()
      ensures forall status: nat :: (m, c) == HaltStep(old(m), status, frame)
    {
      ghost var t, busy, m' := m.cur, Busy(m.chains), HaltStep(m, 0, frame).0;
      GivenUp(m.chains, t, inUse);
      FrontIsBase(m);
      FrontFits();
      inUse := inUse[pcbs[currentProcess[currTerminal]].processId := false];
      c := StartShell(frame, busy - {t}, t);
      RestartFits(m, m', frame, pcbs[t], old(currentProcess), old(inUse), old(known), old(pcbs));
      m := m';
    }

    /** An exception: the flag is raised and the process in front halts with status 255. */
    method Fault(frame: Frame) returns (c: Control)
      requires Valid()
      modifies this
      ensures Valid() && (m, c) == Step(old(m), Event.Fault(frame))
    {
      exceptionFlag := 1;
      m := m.(flag := 1);
      c := Halt(EXCEPTION_STATUS, frame);
    }

    /** `terminal_switch`; a shell it starts is launched from `inner`. */
    method Switch(terminal: nat, frame: Frame, inner: Frame) returns (c: Control)
      requires Valid()
      modifies this
      ensures Valid() && (m, c) == Step(old(m), Event.Switch(terminal, frame, inner))
    {
      if terminal == currTerminal {
        return Returns(0);
      }
      if terminal >= MAX_TERMINAL {
        return Returns(-1);
      }
      FrontFits();
      if currentProcess[terminal] == -1 {
        c := StartTerminal(terminal, frame, inner);
      } else {
        c := ResumeTerminal(terminal, frame, inner);
      }
    }

    /** `terminal_switch` to a terminal that has no process yet. */
    method StartTerminal(terminal: nat, frame: Frame, inner: Frame) returns (c: Control)
      requires Valid() && terminal < MAX_TERMINAL && terminal != currTerminal && m.chains[terminal] == []
      requires 0 <= currentProcess[currTerminal] < MAX_PROCESSES
      modifies this
      ensures Valid() && (m, c) == Step(old(m), Event.Switch(terminal, frame, inner))
    {
      SavedFits(terminal, frame);
      GivenUp(m.chains, terminal, inUse);
      ghost var busy, m' := Busy(m.chains), Step(m, Event.Switch(terminal, frame, inner)).0;
      pcbs := pcbs[currentProcess[currTerminal] := pcbs[currentProcess[currTerminal]].(resume := frame)];
      ghost var saved := pcbs;
      currTerminal := terminal;
      inUse := inUse[currTerminal := false];
      c := StartShell(inner, busy - {terminal}, terminal);
      FirstSwitchFits(m, m', terminal, frame, inner, pcbs[terminal], old(currentProcess), old(inUse), old(known), saved);
      m := m';
    }

    /** `terminal_switch` to a terminal that was left before. */
    method ResumeTerminal(terminal: nat, frame: Frame, ghost inner: Frame) returns (c: Control)
      requires Valid() && terminal < MAX_TERMINAL && terminal != currTerminal && m.chains[terminal] != []
      requires 0 <= currentProcess[currTerminal] < MAX_PROCESSES
      modifies this
      ensures Valid() && (m, c) == Step(old(m), Event.Switch(terminal, frame, inner))
    {
      SavedFits(terminal, frame);
      ghost var m' := Step(m, Event.Switch(terminal, frame, inner)).0;
      FrontPlace(m.chains, terminal);
      pcbs := pcbs[currentProcess[currTerminal] := pcbs[currentProcess[currTerminal]].(resume := frame)];
      LaterSwitchFits(m, m', terminal, frame, inner, currentProcess, pcbs);
      currTerminal := terminal;
      directory32 := ProcessEntry(currentProcess[currTerminal]);
      esp0 := StackTop(currentProcess[currTerminal]);
      m := m';
      c := Resumes(pcbs[currentProcess[currTerminal]].resume, 0);
    }

    /** Whatever is mapped can be run: entry 32 of the page directory is present and open to user programs, and leads to the
        frame of the mapped process. */
    lemma EntryMaps()
      requires Valid()
      ensures MapsProcess(directory32, m.mapped)
    {
      EntryDecodes(m.mapped);
    }

    method Perform(e: Event) returns (c: Control)
      requires Valid()
      modifies this
      ensures Valid() && (m, c) == Step(old(m), e)
    {
      match e
      case Execute(program, frame) => c := Execute(program, frame);
      case Halt(status, frame) => c := Halt(status, frame);
      case Fault(frame) => c := Fault(frame);
      case Switch(terminal, frame, inner) => c := Switch(terminal, frame, inner);
    }

    /** Every run of the controller is a run of the machine, with the same control flow. */
    method PerformAll(es: seq<Event>) returns (cs: seq<Control>)
      requires Valid()
      modifies this
      ensures Valid() && m == Run(old(m), es) && cs == Controls(old(m), es)
      ensures MapsProcess(directory32, m.mapped)
    {
      ghost var start := m;
      cs := [];
      for i := 0 to |es|
        invariant Valid() && Run(start, es) == Run(m, es[i..]) && Controls(start, es) == cs + Controls(m, es[i..])
      {
        ghost var before := cs;
        var c := Perform(es[i]);
        cs := cs + [c];
        assert es[i..][1..] == es[i + 1..];
        assert before + ([c] + Controls(m, es[i + 1..])) == cs + Controls(m, es[i + 1..]);
      }
      EntryMaps();
    }

    /** On the arrays too: a program is started, anything may happen while it stays, and its end goes back to exactly the
        stack position of its `execute`, or of the last program in its slot if it was no executable. */
    method LaunchAndEnd(program: Program, frame: Frame, es: seq<Event>, e: Event, ghost p: nat) returns (c: Control)
      requires Valid() && RunsUntil(m, program, frame, es, p) && (e.Halt? || e.Fault?)
      modifies this
      ensures Valid() && m.chains[old(m).cur] == old(m).chains[old(m).cur]
      ensures c.Resumes? && c.frame == if program == Executable then frame else old(pcbs)[p].launch
      ensures e.Fault? ==> c.value == 256
    {
      ghost var start := m;
      c := Execute(program, frame);
      var cs := PerformAll(es);
      c := Perform(e);
      EndResumesLaunch(start, program, frame, es, e, p);
    }

    /** ... and a terminal is left, anything may happen on the others, and switching back goes on exactly where it was. */
    method LeaveAndReturn(u: nat, frame: Frame, inner: Frame, es: seq<Event>, at: Frame, deeper: Frame) returns (c: Control)
      requires Valid() && AwayDuring(m, u, frame, inner, es)
      modifies this
      ensures Valid() && c == Resumes(frame, 0)
      ensures currTerminal == old(currTerminal) && m.chains[currTerminal] == old(m).chains[currTerminal]
      ensures directory32 == ProcessEntry(Front(old(m)).pid) && esp0 == StackTop(Front(old(m)).pid)
    {
      ghost var start := m;
      var home := currTerminal;
      c := Switch(u, frame, inner);
      var cs := PerformAll(es);
      c := Switch(home, at, deeper);
      SwitchBackResumes(start, u, frame, inner, es, at, deeper);
    }

    /** Saving the stack position of the terminal that is left. */
    lemma SavedFits(terminal: nat, frame: Frame)
      requires Valid() && terminal < MAX_TERMINAL && terminal != currTerminal
      requires 0 <= currentProcess[currTerminal] < MAX_PROCESSES
      ensures var p := currentProcess[currTerminal];
              var saved := pcbs[p := pcbs[p].(resume := frame)];
              && PcbsFit(m.chains, saved, known)
              && forall t | 0 <= t < MAX_TERMINAL && m.chains[t] != [] ::
                   && 0 <= FrontPid(m.chains[t]) < MAX_PROCESSES
                   && saved[FrontPid(m.chains[t])].resume == (if t == m.cur then frame else m.left[t].value)
    {
      var p := currentProcess[currTerminal];
      var saved := pcbs[p := pcbs[p].(resume := frame)];
      forall t, i | Place(m.chains, t, i)
        ensures PcbFits(m.chains, t, i, saved, known)
      {
        assert PcbFits(m.chains, t, i, pcbs, known);
      }
      forall t | 0 <= t < MAX_TERMINAL && m.chains[t] != []
        ensures 0 <= FrontPid(m.chains[t]) < MAX_PROCESSES
        ensures saved[FrontPid(m.chains[t])].resume == (if t == m.cur then frame else m.left[t].value)
      {
        FrontPlace(m.chains, t);
        FrontPlace(m.chains, m.cur);
      }
    }
  }

  /** The machine once the first shell runs, over PCBs that held anything. */
  ghost function Booted(memory: seq<Pcb>, frame: Frame): (m: Machine)
    requires |memory| == MAX_PROCESSES
  {
    Machine(0, [[Proc(0, frame, true)], [], []], [None, None, None],
            seq(MAX_PROCESSES, p requires 0 <= p < MAX_PROCESSES => if p == 0 then frame else memory[p].launch), 0, 0, StackTop(0))
  }

  ghost const IDLE: seq<seq<Proc>> := [[], [], []]

  /** After `terminal_init` the slots of the other two terminals are reserved. */
  lemma IdleSlots(inUse: seq<bool>)
    requires inUse == [false, true, true, false, false, false, false, false]
    ensures Marks(inUse, {1, 2}) && LowestFree({1, 2}, 0) == 0
    ensures ChainsInv(IDLE) && Busy(IDLE) == {0, 1, 2} && Marks(inUse[0 := true], Busy(IDLE))
  {
    assert forall p: nat :: Taken(IDLE, p) <==> p < MAX_TERMINAL;
  }

  /** The first shell has its own memory and stack, and the flag is down. */
  lemma BootedInv(memory: seq<Pcb>, frame: Frame)
    requires |memory| == MAX_PROCESSES
    ensures var m := Booted(memory, frame);
            && Inv(m) && Coherent(m) && AtTop(m) && m.flag == 0
            && (OffTops(frame.esp) && (forall p | 0 < p < MAX_PROCESSES :: OffTops(memory[p].launch.esp)) ==> TopInv(m))
  {
    var m := Booted(memory, frame);
    assert Place(m.chains, 0, 0) && PidAt(m.chains, 0, 0) == 0;
  }
}
