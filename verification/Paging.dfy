/** Page directory entries and the memory map of student-distrib/paging.h and syscall.h. */
module Paging {
  import opened Bytes

  const USER_SPACE := 0x0080_0000
  const PROCESS_SET := 0x87
  const K_STACK_BOTTOM := 0x0080_0000
  const PROCESS_SIZE := 0x2000

  /** `add_process`: the entry at page directory index 32. The address part has its low 22 bits clear,
      so that setting the flag bits is an addition (`FlagsAdd`). */
  function ProcessEntry(pid: nat): (e: int) {
    USER_SPACE + pid * PAGE_4MB + PROCESS_SET
  }

  lemma FlagsAdd(address: bv32)
    requires address & 0x003F_FFFF == 0
    ensures address | 0x87 == address + 0x87
  {
  }

  /** What a directory entry says (section 4.3 of Intel SDM volume 3A): present (bit 0), writable (bit 1), open to user
      programs (bit 2), a 4 MB page (bit 7), no other flag, and the frame of a process, 4 MB each from 8 MB on. */
  ghost predicate MapsProcess(e: int, pid: nat) {
    && e % 2 == 1 && e / 2 % 2 == 1 && e / 4 % 2 == 1 && e / 128 % 2 == 1
    && e % 0x40_0000 == 1 + 2 + 4 + 128
    && FrameOf(e) == 0x80_0000 + pid * 0x40_0000
  }

  lemma EntryDecodes(pid: nat)
    requires pid < MAX_PROCESSES
    ensures MapsProcess(ProcessEntry(pid), pid)
  {
  }

  /** It is what the code computes in 32 bits: the address of the frame with the flag bits set. */
  function EntryWord(pid: bv32): (e: bv32) {
    (0x80_0000 + pid * 0x40_0000) | 0x87
  }

  lemma EntryIsWord(pid: nat, w: bv32)
    requires pid < 8 && w == pid as bv32
    ensures EntryWord(w) as int == ProcessEntry(pid)
  {
    if pid == 0 { assert EntryWord(0) == 0x0080_0087; }
    else if pid == 1 { assert EntryWord(1) == 0x00C0_0087; }
    else if pid == 2 { assert EntryWord(2) == 0x0100_0087; }
    else if pid == 3 { assert EntryWord(3) == 0x0140_0087; }
    else if pid == 4 { assert EntryWord(4) == 0x0180_0087; }
    else if pid == 5 { assert EntryWord(5) == 0x01C0_0087; }
    else if pid == 6 { assert EntryWord(6) == 0x0200_0087; }
    else { assert EntryWord(7) == 0x0240_0087; }
  }

  /** The 4 MB frame an entry points at (section 4.3 of Intel SDM volume 3A: bits 31 to 22). */
  function FrameOf(e: int): (base: int) {
    e - e % PAGE_4MB
  }

  /** Where the PCB of a process lies, and the kernel stack position it enters the kernel with. */
  function PcbAddress(pid: nat): (a: int) {
    K_STACK_BOTTOM - PROCESS_SIZE * (1 + pid)
  }

  function StackTop(pid: nat): (a: int) {
    K_STACK_BOTTOM - PROCESS_SIZE * pid - 4
  }

  /** Distinct processes have 4 MB frames that overlap neither each other nor the kernel's, which lies from 4 MB to 8 MB,
      and 8 KB regions, with the PCB at the bottom and the kernel stack from the last word down, that do not overlap and
      fill the end of the kernel's frame. */
  lemma Disjoint(p: nat, q: nat)
    requires p < q < 8
    ensures 0x80_0000 <= FrameOf(ProcessEntry(p)) && FrameOf(ProcessEntry(p)) + 0x40_0000 <= FrameOf(ProcessEntry(q))
    ensures 0x40_0000 <= PcbAddress(q) && PcbAddress(q) + 0x2000 <= PcbAddress(p) && PcbAddress(p) + 0x2000 <= 0x80_0000
    ensures StackTop(p) == PcbAddress(p) + 0x2000 - 4 && StackTop(q) == PcbAddress(q) + 0x2000 - 4
    ensures p == 0 ==> PcbAddress(p) + 0x2000 == 0x80_0000
    ensures q == p + 1 ==> PcbAddress(q) + 0x2000 == PcbAddress(p)
  {
    assert ProcessEntry(p) % PAGE_4MB == PROCESS_SET == ProcessEntry(q) % PAGE_4MB;
  }
}
