# A model of the ECE 391 teaching kernel

This project models the parts of the kernel and of its user programs whose correctness depends on more than one
function, and proves what they promise. Each module follows a part of the system; where the source updates state in
place, the model is a class or a method on arrays, tied to a specification by its `ensures`, and the laws are proved of
that specification for all inputs and all runs.

| file | part of the system |
|---|---|
| `Processes.dfy` (module `Machines`), `Controller.dfy`, `Paging.dfy` | `execute`, `halt`, exceptions and `terminal_switch`: three terminals, each a LIFO chain of processes, over eight slots. `Machines` is the state machine of chains; class `Controller` holds the kernel's arrays and refines it |
| `Video.dfy` | one video page, three backup pages and a page table remapped at every switch, against three independent screens |
| `Filesystem.dfy`, `Directory.dfy`, `Descriptors.dfy` | block-indexed reads against flat files, name lookup, descriptor tables, whole-file reads by `cat` and `ls` |
| `Grep.dfy`, `GrepProgram.dfy` | the 1 KB sliding window of `grep`, edited in place, against the lines of the file, and the program over the whole directory |
| `Console.dfy`, `LineEditor.dfy` | the 25 by 80 screen as a window on an unbounded text, and the line being typed |
| `CommandLine.dfy` | a typed line on its way through terminal, shell, `parse_cmd_args`, PCB and `getargs` to the program |
| `Blink.dfy` | the linked list of blinking characters threaded through a pool, and its timing |
| `Numbers.dfy`, `Memory.dfy` | `itoa`, `strrev`, `%#x`; the word-at-a-time `memset` and `memcpy` |

Conventions: every system call, exception and key is one atomic step on the current terminal; a saved stack position is
an opaque value `Frame`; a page-table change is visible at once. Machine words are bounded integers with wrap-around and
sign written out. `Descriptors`, `Screen`, `Editor`, `BlinkList` and the other classes carry the invariant `Valid()`. Every
method keeps it but three whose contracts say so: `CloseAll`, after which the process is gone, `Add` at location 0 and
`RedrawKey` with a NUL in the line, where the code itself breaks it.

## Where the code differs from what it promises

The code is modelled as it is, and the condition under which it meets its promise is part of the theorem.

- `execute` takes a slot and moves `current_process` before it looks for the ELF magic, so a regular file without it
  leaves the slot taken. The slot structure survives; the mapped memory and `esp0` are no longer those of the process in
  front (`Machines.CoherenceIff`, `Machines.TopIff`, `Machines.RunEndsWith`), and the next `halt` on that terminal resumes
  whatever stack position the slot's PCB held before (`Machines.HaltResumesLaunch`, `Machines.ResumesOwnIff`).
- A base shell that dies by an exception leaves `exception_flag` up, and the next child is reported with a status one too
  high (`Machines.FlagIff`, `Machines.ExitStatus`, `Machines.StaleFlag`, `Machines.RunEndsWith`).
- `halt` sets `tss.esp0` from the parent's saved stack position, where the other paths use the top of its stack
  (`Machines.ReturnToParent`, `Machines.TopIff`).
- After a switch both terminals' pages are open to programs, so that a program can write to the screen of a terminal in
  the background (`Video.IntrusionIff`, `Video.LeftTerminalIsOpen`).
- `read_data` adds offset and length in 32 bits and accepts a block index equal to the number of blocks, which leads past
  the image (`Filesystem.ReadCompleteIff`, `Filesystem.FromImageIff`, `Filesystem.ReadTrueIff`).
- `file_read` adds a failed read's -1 to the position, which moves it back by one, so that the next read delivers a byte a
  second time (`Descriptors.PositionFollowsIff`, `Descriptors.ReadAgainAfterFailure`).
- `grep` cuts lines every 1024 bytes, and compares the first character of the pattern as a signed one, so that a pattern
  starting with an 8-bit character is never found. A newline left in the uninitialised byte behind its window cuts a line
  in two, so that an occurrence is missed or only a part of the line is printed; the other bytes of the window make no
  difference. `Grep.PrintsMatchingLinesIff` is the exact condition; `Grep.EightBitPatternMissed`, `Grep.EdgeNewlineMisses`
  and `Grep.EdgeNewlinePrintsPart` are inputs. After a failed read it leaves the descriptor open (`Grep.DoOneFile`).
- `getargs` fails for every buffer of at most 128 bytes, however short the arguments; its backward scan trims trailing
  spaces only when the leftovers of an earlier program in the PCB field are blank, and clears the blanks below the buffer
  when everything is blank (`CommandLine.GetArgs`, `CommandLine.KeptArguments`, `CommandLine.ScanLeavesBuffer`).
- `keyboard_read` puts its newline behind a buffer that the line fills (`CommandLine.KeyboardRead`), and `parse_cmd_args`
  the terminator of a first word of 128 or more characters behind its buffer (`CommandLine.ParseCmdArgs`).
- Ctrl+L redraws the line up to the first key that has no character; the screen shows the line again if and only if there
  is no such key (`LineEditor.RedrawShowsIff`).
- A blinker at location 0 is put in the list but its slot still looks free (`Blink.BlinkList.Add`, `Blink.AddTwiceAtZero`).
  `sync` always draws the off character (`Blink.BlinkList.Sync`). On and off lengths of 0 or beyond 0x8000 last one tick
  (`Blink.PhaseAfter`, `Blink.OnIff`).

## Model

| member | source | states |
|---|---|---|
| `Machines.BaseSlots` | student-distrib/syscall.c:203-208 | in every state that satisfies the chain invariant, the lowest free slot is terminal t's own number once slot t is given up, and is 3 or more otherwise |
| `Machines.Restart` | student-distrib/syscall.c:64-68 | halting a base shell starts it again in the slot of its terminal, with everything else unchanged and the flag not cleared |
| `Machines.ReturnToParent` | student-distrib/syscall.c:70-96 | halting any other process leaves exactly the chain of its parent, maps the parent's memory and resumes the stack position in the halted process's PCB, which is that of its own `execute` if it ran; the kernel is entered from then on at the position where the parent itself was started |
| `Machines.Start` | student-distrib/syscall.c:203-273 | a program that gets a slot goes in front of the chain of the current terminal, in a slot no process has; the memory is switched only for an executable |
| `Machines.RefusedIff` | student-distrib/syscall.c:187-213 | an `execute` changes nothing and returns -1 if and only if there is no such file or all eight slots are taken |
| `Machines.SwitchRefused` | student-distrib/terminal.c:45-50 | a switch to the current terminal returns 0, one to a terminal other than 0, 1 and 2 returns -1, and neither changes anything |
| `Machines.FirstSwitch` | student-distrib/terminal.c:79-84 | the first switch to a terminal starts its base shell in the slot of the same number |
| `Machines.LaterSwitch` | student-distrib/terminal.c:89-107 | a later switch maps the process in front of that terminal, enters the kernel at the top of its stack and resumes where it was left |
| `Machines.StepKeepsInv` | student-distrib/syscall.c:60-285 | every event keeps the invariant: chains start at their terminal's slot, go on in slots 3 to 7, never share a slot |
| `Machines.EndResumesLaunch` | student-distrib/syscall.c:74-96 | whatever happens meanwhile on any terminal, the end of a program by `halt` or by an exception resumes its parent at exactly the position of the `execute`, with the chain as it was and the value owed (256 for an exception); if the file was no executable, it resumes the position from which the slot was used the last time |
| `Machines.ResumesOwnIff` | student-distrib/syscall.c:74-85 | a halt resumes the position of the process's own `execute` if and only if the program ran, or the PCB happened to hold an equal position already |
| `Machines.SwitchBackResumes` | student-distrib/terminal.c:53-107 | whatever happens on the other terminals, switching back resumes exactly where the terminal was left, with its chain, memory and kernel stack |
| `Machines.FlagIff` | student-distrib/syscall.c:64-72 | after an event the flag is up if and only if a base shell has just died by an exception, or it was up and no child has ended |
| `Machines.ExitStatus` | student-distrib/syscall.c:71-72 | a parent sees 256 if and only if its child died by an exception or halted with 255 while the flag was up |
| `Machines.ExitStatusFaithful` | student-distrib/syscall.c:60-72 | over every run in which no base shell dies by an exception, a parent sees 256 if and only if its child did, and otherwise the child's own status |
| `Machines.StaleFlag` | student-distrib/syscall.c:65-72 | after a base shell has died by an exception, the next child that halts is seen with a status one too high |
| `Machines.CoherenceIff` | student-distrib/syscall.c:216-247 | after any event, in any state, the mapped memory is that of the process in front if and only if the event gave the processor to a program, a terminal or a parent, or it was so before and no file without the ELF magic was given a slot |
| `Machines.TopIff` | student-distrib/syscall.c:95 | after any event `esp0` is the top of the stack of the process in front if and only if the event gave the processor to a program or a terminal, or it was so before, no child ended and no slot was taken in vain |
| `Machines.RunStaysCoherent` | student-distrib/paging.c:52-55 | over every run in which each file executed has the magic, the mapped memory is that of the process in front |
| `Machines.RunEndsWith` | student-distrib/syscall.c:60-285 | a run ends with the exception flag up (with the mapped memory, with `esp0` of the process in front) if and only if some event brought this about and none after it ended it, or it was so at the start and no event ended it |
| `Controller.Controller.constructor` | student-distrib/syscall.c:30-43 | after `pc_init`, `terminal_init` and the first shell, whatever the PCB memory held, the arrays represent the booted machine |
| `Controller.Controller.ExecuteProgram` | student-distrib/syscall.c:202-273 | the whole new state of the arrays: lowest free slot, PCB, parent, current process, page directory entry, `esp0`, for each outcome |
| `Controller.Controller.Execute` | student-distrib/syscall.c:164-285 | `execute` on the arrays is the step of the machine, control flow, `esp0` and the stack positions in the PCBs included |
| `Controller.Controller.Halt` | student-distrib/syscall.c:60-110 | `halt` on the arrays is the step of the machine: the stack position resumed, the status, the mapping and `esp0`, on both branches |
| `Controller.Controller.RestartShell` | student-distrib/syscall.c:65-68 | the restart branch is the machine's step for every status |
| `Controller.Controller.Fault` | student-distrib/exceptions.c:158-159 | an exception raises the flag and halts with status 255; control flow and `esp0` are the machine's |
| `Controller.Controller.Switch` | student-distrib/terminal.c:44-110 | `terminal_switch` on the arrays is the step of the machine, with its two early returns |
| `Controller.Controller.StartTerminal` | student-distrib/terminal.c:79-84 | the first-use branch saves the position of the terminal left behind and starts the base shell |
| `Controller.Controller.ResumeTerminal` | student-distrib/terminal.c:53-61 | the resume branch saves one stack position and returns to another |
| `Controller.Controller.PerformAll` | student-distrib/syscall.c:60-285 | every run of the kernel's arrays is a run of the machine with the same control flow at every event, so that `in_use` is at all times the union of the chains and the slots reserved for unused terminals; page directory entry 32 is present, writable, open to users and leads to the 4 MB frame of the mapped process |
| `Controller.Controller.EntryMaps` | student-distrib/paging.c:52-55 | in every valid state entry 32 is present, writable, open to users, a 4 MB page, and its frame is 8 MB plus 4 MB times the number of the mapped process |
| `Controller.Controller.LaunchAndEnd` | student-distrib/syscall.c:74-96 | on the arrays: start a program, let anything happen while it stays, end it by `halt` or an exception; control goes to the position of its `execute`, or to what the PCB held before if it was no executable |
| `Controller.Controller.LeaveAndReturn` | student-distrib/terminal.c:53-107 | on the arrays: leave a terminal, let anything happen on the others, switch back; control goes to where it was left, with its memory and kernel stack |
| `Controller.BootedInv` | student-distrib/terminal.c:22-28 | the booted machine satisfies the invariant, with memory and stack of the first shell and the flag down |
| `Paging.Disjoint` | student-distrib/paging.c:52-55 | distinct processes have disjoint 4 MB frames from 8 MB on, and disjoint 8 KB regions that fill the end of the kernel's frame from 8 MB down, with the PCB at the bottom and the kernel stack from the last word down |
| `Paging.EntryDecodes` | student-distrib/paging.c:53 | the entry of every process decodes to present, writable, user, 4 MB page, no other flag, and its own frame |
| `Paging.EntryIsWord` | student-distrib/paging.c:53 | the entry is the 32-bit word the code computes with `|` |
| `Paging.FlagsAdd` | student-distrib/paging.c:53 | setting the flag bits of an aligned directory entry is an addition |
| `Video.ScreenIsWritesToIt` | student-distrib/terminal.c:64-74 | for every interleaving of events, the screen of a terminal is what the writes addressed to it produce |
| `Video.ByteIsLastWritten` | student-distrib/terminal.c:64-74 | for every interleaving, each byte of each screen is that of the last write to it, or the initial one if there is none |
| `Video.StepSetsByte` | student-distrib/lib.c:195-196 | one event sets at most one byte of one screen and leaves every other byte of every screen |
| `Video.ScreenIsOwnWrites` | student-distrib/terminal.c:64-74 | over every run in which no program writes to the page of another terminal, the screen of a terminal is what its own writes alone produce |
| `Video.IntrusionIff` | student-distrib/terminal.c:68-74 | an event changes the screen of a terminal in the background if and only if it is a user write to that terminal's page, open to programs, of a byte that differs |
| `Video.LeftTerminalIsOpen` | student-distrib/terminal.c:68 | after a switch a program can write to the screen of the terminal that was left |
| `Video.Entries` | student-distrib/paging.h:14-33 | what the page-table entries that occur decode to: frame, present bit, user bit, table indices |
| `Video.Display.constructor` | student-distrib/paging.c:33-38 | the mappings of `paging_init` give every terminal a screen |
| `Video.Display.MapVirtToPhys` | student-distrib/paging.c:67-73 | the page leads to the frame given, every other page of mapped tables leads where it did |
| `Video.Display.CopyPage` | student-distrib/terminal.c:70-72 | the page seen at the destination is the one seen at the source before, and no other frame changes |
| `Video.Display.ExchangeScreens` | student-distrib/terminal.c:67-74 | through the mappings as they change line by line, the old screen ends in its backup and the new terminal's backup on the screen |
| `Video.Display.Switch` | student-distrib/terminal.c:44-74 | a switch leaves what every terminal shows as it was, and makes the new one current |
| `Video.Display.Vidmap` | student-distrib/syscall.c:490-529 | the pointer check, the address returned and stored in the caller's cell, and that it leads to video memory with user access |
| `Video.Display.Poke` | student-distrib/terminal.c:68-74 | a user write to page number p sets the one byte of what terminal p shows, and no other byte of any terminal, if and only if p is a terminal whose page programs were given, and faults otherwise |
| `Video.Display.Put` | student-distrib/lib.c:195-196 | a kernel write sets the one byte of what the current terminal shows, and no other byte of any terminal |
| `Video.Display.PerformAll` | student-distrib/terminal.c:64-74 | for every interleaving on the physical pages, each byte that a terminal shows (video page or its backup) is that of the last write addressed to it; without writes to other terminals' pages, what is shown is what its own writes alone produce |
| `Filesystem.CopyFromBlock` | student-distrib/filesystem.c:499-506 | the innermost loop writes exactly a stretch of the flat file, and nothing else of the buffer |
| `Filesystem.CopyBlocks` | student-distrib/filesystem.c:474-509 | the block loop delivers the flat file up to the end or the first bad block, also for an end that wrapped |
| `Filesystem.ReadData` | student-distrib/filesystem.c:454-510 | return value and buffer for every inode, offset and length |
| `Filesystem.FlatFile` | student-distrib/filesystem.c:475-505 | byte p of the flat file is byte p mod 4096 of the block that index p / 4096 names |
| `Filesystem.SplicedIff` | student-distrib/filesystem.c:501-506 | what writing a stretch into a buffer means, byte by byte |
| `Filesystem.ReadIsSliceOfFile` | student-distrib/filesystem.c:454-510 | on a file whose needed blocks are all accepted, without a wrap, a read returns min(length, size - offset) and that slice of the file, whatever the index after an aligned end holds |
| `Filesystem.ReadCompleteIff` | student-distrib/filesystem.c:472-498 | a read inside the file returns the full count if and only if the sum does not wrap and `read_data` accepts every block of the stretch |
| `Filesystem.FromImageIff` | student-distrib/filesystem.c:492 | what a read delivers is independent of the memory past the image if and only if it needs no block whose index is `num_data_blocks` |
| `Filesystem.ReadTrueIff` | student-distrib/filesystem.c:472-498 | a read delivers the full count from the image alone if and only if the sum does not wrap and every block of the stretch lies in the image |
| `Filesystem.PastIsDelivered` | student-distrib/filesystem.c:492 | a file whose first index is `num_data_blocks` delivers the memory past the image as its own |
| `Filesystem.ReadStopsAtBadBlock` | student-distrib/filesystem.c:491-498 | with a bad needed block a read returns the stretch before it, or -1 when that is empty |
| `Filesystem.WrappedReadIsEmpty` | student-distrib/filesystem.c:478-498 | when offset and length wrap, nothing is delivered, and the value is -1 if and only if the wrapped end lies in the same, refused block, else 0 |
| `Filesystem.ReachStopsAtBadBlock` | student-distrib/filesystem.c:489-498 | where the block walk stops: everything before lies in good blocks, an early stop is at a bad one |
| `Directory.CreateCharCount` | student-distrib/filesystem.c:321-336 | the table holds the length of every name |
| `Directory.Strncmp` | student-distrib/lib.c:529-544 | zero if and only if the strings are the same as far as n characters tell, else the signed difference at the first disagreement |
| `Directory.AgreementIsEquality` | student-distrib/filesystem.c:375-378 | between names of equal length the bounded comparison decides equality |
| `Directory.ReadDentryByName` | student-distrib/filesystem.c:354-388 | the lookup filtered by cached lengths returns the first entry of that name, and fails if and only if there is none |
| `Directory.QueryIsFirstWord` | student-distrib/filesystem.c:359-368 | what is looked up is the characters before the first space or NUL, at most 32 |
| `Directory.ListedNameLooksUpItself` | student-distrib/filesystem.c:354-388 | with distinct, nonempty, space-free names, every listed name looks up its own entry and no other |
| `Descriptors.StepKeepsSane` | student-distrib/fd_table.c:135-186 | opening, closing and moving a position keep 0 and 1 on keyboard and terminal, and a slot on if and only if it has a driver |
| `Descriptors.RunKeepsSane` | student-distrib/fd_table.c:60-186 | the same over every run of calls |
| `Descriptors.PerformCalls` | student-distrib/syscall.c:317-423 | over every run of `open`, `read` and `close` with any names, descriptors and 32-bit counts in any order, each call answers as it should in the table the calls before it left; the table stays sane and no other process's table ever changes |
| `Descriptors.Read` | student-distrib/syscall.c:317-330 | the value, the buffer and the table for every descriptor: -1 and no change if it is not open, the bytes, count and new position of a file, the name and the next entry of a directory; keyboard, terminal and clock reads leave the table alone |
| `Descriptors.Descriptors.TableInit` | student-distrib/fd_table.c:60-78 | a fresh table has the keyboard at 0 and the terminal at 1, its other six slots are blank, no other process's table changes |
| `Descriptors.Descriptors.CloseAll` | student-distrib/fd_table.c:86-97 | all eight slots of the caller are blank, no other table changes |
| `Descriptors.Descriptors.GetFdIndex` | student-distrib/fd_table.c:110-121 | the lowest free index of 2 to 7, -1 if and only if all are taken |
| `Descriptors.Descriptors.Open` | student-distrib/syscall.c:376-399 | the lowest free descriptor on the first entry of that name; -1 if and only if the name is unknown or all six are taken |
| `Descriptors.Descriptors.Close` | student-distrib/syscall.c:413-423 | 0 if and only if the descriptor is open and one of 2 to 7, which then becomes blank |
| `Descriptors.Descriptors.FileRead` | student-distrib/filesystem.c:266-272 | value, buffer and position for every read, failures included; the position follows the bytes delivered if and only if the read does not fail; every other descriptor unchanged |
| `Descriptors.PositionFollowsIff` | student-distrib/filesystem.c:268-271 | the position moves by the bytes delivered if and only if the read does not fail: nothing to read, or the block at the position is accepted, or the end wraps to an earlier block |
| `Descriptors.ReadAgainAfterFailure` | student-distrib/filesystem.c:268-271 | after a failure at the start of a block the position is one back, and the next read delivers the last byte of the block before once more |
| `Descriptors.Descriptors.DirRead` | student-distrib/filesystem.c:160-177 | the name of the entry at the position, cut to the count; the position moves by one entry |
| `Descriptors.ChunksAreContents` | student-distrib/filesystem.c:266-272 | for any chunk sizes, the concatenated reads of a readable file are the file from the first position to the last, which never passes the end |
| `Descriptors.ReadAdvances` | student-distrib/fd_table.c:212-218 | one read before the first refused block delivers up to the new position, which never passes that block |
| `Descriptors.ReadFailsAtDamage` | student-distrib/filesystem.c:491-498 | a read at the first refused block fails |
| `Descriptors.Cat` | syscalls/ece391cat.c:21-30 | reading until zero or a failure terminates; it has written exactly the whole file and returns 0 if and only if every block is accepted, else all before the first refused block and returns 3 |
| `Descriptors.ListDirectory` | syscalls/ece391ls.c:18-26 | reading until zero terminates with the names in order up to an empty one; with distinct, nonempty, space-free names these are all of them, and each looks up its own entry |
| `Grep.PrintsMatchingLinesIff` | syscalls/ece391grep.c:20-60 | whatever the byte behind the window holds, what is printed is exactly the lines that contain the pattern, once each and in order, if and only if every such line has at most 1024 bytes, when there is one the pattern is nonempty and starts with a 7-bit character, and a newline behind the window cuts none of them |
| `Grep.PiecesMatchIff` | syscalls/ece391grep.c:20-60 | the same without a newline behind the window |
| `Grep.ShortLinesAllPrinted` | syscalls/ece391grep.c:20-60 | a pattern whose first character is below 128 is found in every line of at most 1024 bytes |
| `Grep.EdgeHits` | syscalls/ece391grep.c:33 | with a newline behind the window a file is searched in two parts, cut behind the first full window that does not end in a newline |
| `Grep.SplitMatchIff` | syscalls/ece391grep.c:33 | searching a text in two parts prints the lines owed if and only if each has at most 1024 bytes, the pattern can be found, and the cut lies at the end of a line or in a line without the pattern |
| `Grep.EightBitPatternMissed` | syscalls/ece391grep.c:43 | the one-byte line 200 contains the pattern 200 and is not printed |
| `Grep.EdgeNewlineMisses` | syscalls/ece391grep.c:33 | with a newline in the uninitialised byte behind the window, a line across the window's edge is searched in two parts and an occurrence is missed |
| `Grep.EdgeNewlinePrintsPart` | syscalls/ece391grep.c:33 | ... or a part of the line is printed where the whole line is owed |
| `Grep.ShortLinesPrintWhole` | syscalls/ece391grep.c:29-57 | files whose matching lines have at most 1024 bytes are printed line by line |
| `Grep.PiecesChop` | syscalls/ece391grep.c:29-57 | what is searched is each line cut every 1024 bytes |
| `Grep.HitsAreSelected` | syscalls/ece391grep.c:42-51 | a piece is printed if and only if the pattern occurs in it |
| `Grep.PatternAt` | syscalls/ece391support.c:35-46 | zero if and only if the pattern is a prefix of the rest of the line |
| `Grep.Puts` | syscalls/ece391support.c:19-22 | the bytes up to the terminator |
| `Grep.CopyDown` | syscalls/ece391support.c:14-17 | the overlapping copy moves the string down and leaves everything above its terminator |
| `Grep.SearchLine` | syscalls/ece391grep.c:42-51 | a line is printed once if the pattern occurs anywhere in it, otherwise not |
| `Grep.RenderOne` | syscalls/ece391grep.c:45-48 | a printed line is the name, a colon, the line and a newline |
| `Grep.FindLineEnd` | syscalls/ece391grep.c:30-32 | the first newline from the line's start, or the end of the data |
| `Grep.MoveDown` | syscalls/ece391grep.c:33-39 | the unfinished line moves to the bottom of the buffer |
| `Grep.ScanLines` | syscalls/ece391grep.c:28-57 | prints the hits of the finished pieces of the window and stops at an unfinished line or the end; printed and still to come make up what was to come |
| `Grep.ScanWindow` | syscalls/ece391grep.c:28-57 | the same with the unfinished line moved down, and what becomes of the byte behind the window |
| `Grep.FillWindow` | syscalls/ece391grep.c:22-27 | a read appends the next bytes to the unfinished line, or fails at the first refused block or at once for an inode that does not exist; a clock read appends nothing |
| `Grep.SearchFile` | syscalls/ece391grep.c:20-60 | the read loop terminates and has printed the hits of the whole file, or, before a refused block, all hits but possibly that of an unfinished line |
| `Grep.DoOneFile` | syscalls/ece391grep.c:10-66 | whatever the window held before, for regular files, missing inodes and the clock: prints exactly the hits, which are the lines that contain the pattern if and only if the conditions above hold; returns 0 and leaves all descriptor tables as they were if and only if it opens and every block is accepted; the outputs of a failed open and a failed read, after which the descriptor stays open |
| `GrepProgram.GrepDirectory` | syscalls/ece391grep.c:68-97 | the whole program, given its pattern: when it succeeds, when it returns 2 or 3, and that its output is the lines that contain the pattern of every file in listing order, if each file meets the conditions above |
| `GrepProgram.SearchAll` | syscalls/ece391grep.c:84-94 | the loop over the directory: it ends with 0 if and only if no listed name stops it, having printed what every entry owes, in order |
| `GrepProgram.OneEntry` | syscalls/ece391grep.c:92 | one listed name: success if and only if it finds a descriptor, an entry and readable blocks; then the output owed |
| `GrepProgram.LeadsToItself` | syscalls/ece391grep.c:84-94 | with distinct, nonempty, space-free names every listed name opens its own entry |
| `GrepProgram.OwedIs` | syscalls/ece391grep.c:89-94 | with distinct, nonempty, space-free names, a name that starts with a dot owes nothing, and every other regular file its lines that contain the pattern |
| `Console.Screen.Clear` | student-distrib/lib.c:21-31 | all cells blank, cursor home |
| `Console.Screen.ShiftUp` | student-distrib/lib.c:210-223 | every row takes the row below, the last becomes blank |
| `Console.Screen.Scroll` | student-distrib/lib.c:207-231 | in every state the same as writing a newline; the mutual recursion terminates |
| `Console.Screen.Putc` | student-distrib/lib.c:170-200 | the screen stays the bottom 25 rows of the text with the character added |
| `Console.Screen.Backspace` | student-distrib/lib.c:240-252 | the cell before the cursor is erased, also across a row; nothing at the first cell of the screen |
| `Console.Screen.Write` | student-distrib/lib.c:154-162 | a string is written character by character |
| `Console.Screen.ShowText` | student-distrib/lib.c:154-231 | after `clear`, whatever is written, every cell of the 25 by 80 screen: the last 25 rows of the stream, attribute 7, blank elsewhere; the cursor behind the last character |
| `Console.WrittenText` | student-distrib/lib.c:169-231 | after `clear`, whatever is written, the text is that stream broken at newlines and every 80 characters, with the cursor behind its last character |
| `Console.LinesAtBreak` | student-distrib/lib.c:173 | a line ends at byte 10 or 13 and nowhere else |
| `Console.WrapAt80` | student-distrib/lib.c:185 | a line is broken after 80 characters, and not before |
| `LineEditor.PutAtPos` | student-distrib/lib.c:183-198 | a byte other than 10 and 13 moves the cursor by one cell, shows there with attribute 7 and leaves all cells before it |
| `LineEditor.EraseAtPos` | student-distrib/lib.c:240-252 | a backspace moves the cursor back by one cell, blanks it and leaves all cells before it |
| `LineEditor.TypingAppends` | student-distrib/keyboard.c:480-484 | typing appends the characters up to 127 in all, and drops all further ones |
| `LineEditor.BackspacesErase` | student-distrib/keyboard.c:497-503 | n backspaces take the last n characters off the line, and stop at the empty line |
| `LineEditor.TypedAndErased` | student-distrib/keyboard.c:480-503 | as many backspaces as characters were accepted give the line back |
| `LineEditor.CorrectionVanishes` | student-distrib/keyboard.c:480-503 | a character and a backspace anywhere among the keys make no difference, unless the line is full there |
| `LineEditor.Editor.constructor` | student-distrib/keyboard.c:261-285 | an empty line, wherever the cursor is |
| `LineEditor.Editor.TypeKey` | student-distrib/keyboard.c:480-484 | a key is appended to buffer and screen, or dropped when 127 are there |
| `LineEditor.Editor.BackspaceKey` | student-distrib/keyboard.c:497-503 | the last key goes from buffer and screen, or nothing happens |
| `LineEditor.Editor.Keys` | student-distrib/keyboard.c:480-503 | for every sequence of keys the buffer is their edit-fold, at most 127 long with a NUL tail, and the screen shows it across wraps and scrolls; erasing everything returns the cursor to its position |
| `LineEditor.Editor.TypeAndErase` | student-distrib/keyboard.c:480-503 | characters typed and erased again leave line and cursor where they were, across wraps and scrolls |
| `LineEditor.RedrawShowsIff` | student-distrib/keyboard.c:434-440 | what Ctrl+L draws shows the line again if and only if no key without a character was typed |
| `LineEditor.Editor.RedrawKey` | student-distrib/keyboard.c:434-440 | a cleared screen with the prompt and the line up to its first NUL; the editor's invariant survives if and only if there is none |
| `LineEditor.Editor.EnterKey` | student-distrib/keyboard.c:514-521 | the line is saved with a NUL tail, the screen goes on to a new row, the buffer is empty |
| `LineEditor.Editor.TerminalRead` | student-distrib/terminal.c:142-156 | the save buffer holds the first bytes of the key buffer and a NUL tail, for every count; the value is always -1 |
| `LineEditor.Editor.ClearBuffer` | student-distrib/keyboard.c:532-538 | all NUL, index 0 |
| `CommandLine.TerminalRetrieve` | student-distrib/terminal.c:201-215 | the caller's buffer of any size holds the line without its leading spaces, as far as it fits, terminated if there is room |
| `CommandLine.KeyboardRead` | student-distrib/keyboard.c:47-69 | for every count: the line as far as it fits, a newline behind it unless the buffer says `exit`; the newline lands behind the buffer and the count is one too high if and only if the line fills the buffer and does not say so |
| `CommandLine.ReadCommand` | syscalls/ece391shell.c:16-24 | after `keyboard_read` and the shell's own edit, the buffer holds the line without leading spaces, whether or not a newline was appended; the shell leaves if and only if it is `exit` |
| `CommandLine.ParseCmdArgs` | student-distrib/syscall.c:119-144 | for a command of any length: of its first 128 characters the first word, and the rest without leading spaces; every write stays in the 128-byte buffers if and only if the first word has fewer than 128 characters |
| `CommandLine.WordAndArguments` | student-distrib/syscall.c:123-143 | of a word, spaces and what follows them, the word is the command and what follows are the arguments |
| `CommandLine.Strcpy` | student-distrib/lib.c:553-562 | the string is copied; what lies beyond its terminator stays |
| `CommandLine.GetArgs` | student-distrib/syscall.c:439-471 | fails for every buffer of at most 128 bytes; otherwise the 128 PCB bytes up to the last that is not blank; exactly which bytes below the buffer the backward scan clears, and that some change if and only if the buffer has more than 128 bytes, all PCB bytes are blank and a space lies in the run of blanks just below the buffer |
| `CommandLine.ScanLeavesBuffer` | student-distrib/syscall.c:458-465 | with blank arguments a space just below a 129-byte buffer is overwritten |
| `CommandLine.KeptArguments` | student-distrib/syscall.c:458-465 | the program sees its arguments without trailing spaces if the PCB bytes past the terminator are blank, and as typed otherwise |
| `CommandLine.PassArguments` | student-distrib/syscall.c:229 | `getargs` succeeds if and only if there are arguments and the buffer has more than 128 bytes |
| `CommandLine.LineParts` | student-distrib/syscall.c:119-144 | of a line of spaces, word, spaces, arguments and spaces the command is the word, and over blank leftovers the program sees the arguments without the spaces around them |
| `CommandLine.FromLineToProgram` | syscalls/ece391shell.c:14-27 | every line of the save buffer reaches the program within all bounds: the command is the first word, the arguments are the rest without leading spaces; `exit` and empty lines start nothing |
| `CommandLine.FromKeysToProgram` | student-distrib/keyboard.c:480-521 | the same from the keyboard on: for every sequence of keys and backspaces before Enter, the program gets the line the keys leave after all corrections, up to the first key without a character |
| `Blink.PhaseAfter` | fish/blink.S:60-90 | after n ticks a blinker is in phase n of its period, for all 16-bit lengths |
| `Blink.PhaseIsMod` | fish/blink.S:60-90 | that phase is n modulo the period |
| `Blink.OnIff` | fish/blink.S:60-90 | n mod (on + off) < on says when a blinker is on, for all n, if and only if both lengths are from 1 to 0x8000 |
| `Blink.StayInStep` | fish/blink.S:60-90 | blinkers with equal timers stay equal through every tick |
| `Blink.SyncedStayInStep` | fish/blink.S:267-275 | two blinkers of the list that were synced have equal status and countdown after every later tick |
| `Blink.AddedBlinks` | fish/blink.S:131-138 | a blinker with lengths from 1 to 0x8000 added to any list is on n ticks later if and only if n mod (on + off) < on |
| `Blink.RunShows` | fish/blink.S:60-170 | over every run of adds and ticks, the last character drawn at the location of a blinker that has it to itself is that of its status |
| `Blink.AddedShows` | fish/blink.S:60-170 | a blinker added at a free location, with lengths from 1 to 0x8000, shows its on character n ticks later if n mod (on + off) < on, and its off character otherwise |
| `Blink.RedrawsNewStatus` | fish/blink.S:68-86 | a tick draws a blinker if and only if its status changes, with the character of the new status |
| `Blink.BlinkList.constructor` | fish/fish.c:28 | a cleared pool is the empty list |
| `Blink.BlinkList.Malloc` | fish/fish.c:161-171 | the first slot with location 0, NULL if and only if there is none |
| `Blink.BlinkList.FindHelper` | fish/blink.S:351-379 | the most recently added blinker at the location |
| `Blink.BlinkList.Add` | fish/blink.S:105-184 | the blinker goes to the front and is drawn; -1 if and only if it is off the screen or the pool is full; at location 0 the pool is no longer a well-formed list |
| `Blink.BlinkList.Remove` | fish/blink.S:187-237 | the most recent blinker at the location goes, its slot is zeroed, the rest of the list is unchanged |
| `Blink.RemovedFindsOlder` | fish/blink.S:187-237 | after a removal the next older blinker at the location is found |
| `Blink.RemovedKeepsOthers` | fish/blink.S:187-237 | after a removal every other location is found as before |
| `Blink.BlinkList.Find` | fish/blink.S:302-349 | the data of the most recent blinker at the location |
| `Blink.BlinkList.Sync` | fish/blink.S:240-300 | the second blinker takes over the timer of the first and its off character is drawn, which is the character of the new status if and only if the first blinker is off or both characters are equal |
| `Blink.SyncedOnlyTimer` | fish/blink.S:267-275 | a sync gives the second blinker the timer of the first, keeps its location and characters, and changes no other blinker |
| `Blink.BlinkList.TickSlot` | fish/blink.S:60-90 | one blinker ticks and is drawn if and only if its status changes, with the character of the new status |
| `Blink.BlinkList.Tick` | fish/blink.S:49-99 | every blinker ticks once, and those that expire are redrawn in list order |
| `Blink.PerformAll` | fish/blink.S:105-300 | after any sequence of operations with locations other than 0 the list is acyclic, its slots are exactly those in use, all others are zero, its contents are what the operations describe, and so is what was drawn |
| `Blink.AddTwiceAtZero` | fish/fish.c:165 | a second blinker at location 0 makes its slot its own successor |
| `Numbers.WriteDigits` | student-distrib/lib.c:299-304 | the digits of the value, lowest first, without a zero at the end |
| `Numbers.Strrev` | student-distrib/lib.c:317-330 | the string reversed in place, nothing else changed |
| `Numbers.Itoa` | student-distrib/lib.c:282-309 | for every radix from 2 to 36, a terminated numeral without leading zero that reads back as the value |
| `Numbers.ItoaWord` | student-distrib/lib.c:282-309 | the same for every 32-bit value in a 33-byte buffer, whatever the radix |
| `Numbers.DigitTable` | student-distrib/lib.c:284 | the digits are those of the lookup table, and each stands for its index there |
| `Numbers.EnoughDigits` | student-distrib/lib.c:282-309 | 32 digits are enough for every 32-bit value in every radix |
| `Numbers.PrintHex8` | student-distrib/lib.c:86-96 | `%#x` emits exactly eight digits that read back as the value |
| `Memory.Memset` | student-distrib/lib.c:354-389 | for every length and alignment, the same as filling byte by byte |
| `Memory.Memcpy` | student-distrib/lib.c:446-484 | for every length and alignment, the same as copying byte by byte, unless the destination starts inside the source |

## Left out

- Grep.DoOneFile: a name that resolves to a directory, and a file with NUL bytes before its first refused block, where the program's C strings end early.
- Grep.SearchFile: files with NUL bytes, as for `Grep.DoOneFile`.
- GrepProgram.GrepDirectory: the same for every listed name, and an entry `.` that is not a directory; what was printed before an error is not stated.
- CommandLine.GetArgs: with nothing but blanks in the arguments the scan runs below the buffer; memory there must hold something that is not blank for the call to end at all.
- Memory.Memcpy: a destination that starts inside the source, which the C standard leaves open; the two calls in the kernel copy between whole pages.
- Numbers.Itoa: buffers too small for the digits; the source has no bound of its own.
- The three modules Controller, Descriptors and CommandLine each hold their own part of a PCB; that `execute` fills all parts of the same one is not stated.
- How `execute` reads the file name (at most 31 characters), the entry point, the loading of the image and the switch to user mode; a command is one of missing, not executable, executable, and the shell file is present and executable.
- The key map and the shift, caps, control and alt modes: each key arrives as the character it produces.
- Debug keys, test code, `print_file_info` and the printing done by exception handlers.
- Saving and restoring registers, `iret`, control registers, TLB flushes, the hardware cursor and port I/O.
- Interrupts that arrive in the middle of a call, the busy waits of `keyboard_read` and the clock, `cli` and `sti`.
- The clock driver, the interrupt controller, the interrupt table and the boot code: straight-line set-up and small tables.
- The scheduler, whose body is commented out in the source.
- The other branches of `printf`, `memmove`, `memset_word`, `memset_dword`, `strncpy` and the user library's copies of the number and string functions, which add nothing to the ones modelled.
- The animation of `fish`, the programs `pingpong`, `counter`, `hello`, `sigtest`, `syserr` and `testprint`, and the emulation layer.
- Video memory is a two-dimensional array of cells rather than bytes at `2 * (80 * row + column)`; the innermost loop of `read_data` and the line break of `putc` are methods of their own.
