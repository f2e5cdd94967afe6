# A verified model of a small teaching kernel

This project models, in Dafny, the parts of the kernel whose correctness lies in
state that many entry points share, and proves what those entry points keep over
whole runs.

- **Processes and the scheduler.** `CallStacks` is the reference model: one call
  stack of programs for each booted terminal, one stack running, the others
  parked at the frame where they lost the processor. `CallStackRuns` and
  `CallStackHistories` prove what holds over every run of it: calls return like a
  stack, parked threads go on where they stopped, the timer is fair. `ControlBlocks` and `KernelState` say
  when linked process control blocks, the slot array, the counters, the two shell
  masks, the page directory and `esp0` stand for such stacks. `Kernel` is the
  imperative kernel on exactly those variables, and `Kernel.Serve` proves that
  from power-up any sequence of entries takes it through the states and outcomes
  of the reference model. `Paging` is the address arithmetic underneath.
- **Files.** `FileSystem` gives the disk image a meaning (a file is a sequence of
  bytes) and proves the block-wise read routines against it; `Descriptors` proves
  that open files and directories are independent streams.
- **Terminals.** `Terminals` is one screen on its own; `Screen` has the visible
  page, the three backing pages and the swap between them, and proves that they
  cannot be told from three independent screens. `LineEditor` is a keyboard line
  as tokens, `Keyboard` the handler on its three-row buffer. `Typing` says in
  scan codes and characters what a key press does to a line and what it prints.
- **Searching, numbers, copying, the clock.** `GrepLines` and `Grep` (the search
  through a 1024-byte buffer against "the lines that contain the pattern"),
  `Numbers` (`itoa`, `%#x`, `%d`), `BlockMoves` (`memcpy`, `memmove`), `Rtc`.
  `Bytes` and `Division` hold what several of them need.
- **Together.** `Console` lets one key press act on the line buffers, the display
  and the process system: what it edits, what it prints and erases on which
  screen, and which terminal it displays and boots.

Saved frame pointers are opaque tokens: only which one is resumed matters. The
terminal's answers and uninitialised stack bytes are parameters: where a claim
depends on such a byte, it says for which values it holds.

Where the code does not do what it is for, the model follows the code and a lemma
gives the exact condition under which the purpose is met, beside one with an
input that fails:

- a long line is searched in pieces of 1024 bytes, and the pattern's first byte
  is compared as a signed character with an unsigned one, so on a file without
  NUL bytes `grep` reports the lines that contain the pattern if and only if no
  line of more than 1024 bytes contains it, that byte is below 128 or no line
  contains the pattern, and, when the stack happens to hold a newline behind the
  buffer, the line cut by it does not contain the pattern: the one that goes on
  from the first full buffer that ends in the middle of a line which is not its
  first (`GrepLines.ReportIsExact`, `CutReportIsExact`; `LongLineIsCut`,
  `HighByteIsMissed`, `CutLineIsMissed`);
- after `vidmap` a program reaches its own frame and video memory and nothing
  else if and only if the stack happened to hold a zero at the page-size bit that
  `src/sys_calls.c:579-584` leaves alone; otherwise it reaches the kernel's 4 MB
  (`Kernel.Serve`, `Paging.IsolatedWhenSealed`; `LargeBitExposesKernel`);
- `vidmap` accepts addresses up to one past the program's 4 MB, and the store
  through them is mapped if and only if the address is at least four below that
  end; otherwise the machine hangs (`Paging.StoreIsMapped`);
- backspace keeps the cursor on the screen if and only if as many columns, or for
  a soft break a row, are before it (`Console.KeyPressed`;
  `BackspaceLeavesScreen`);
- backspace takes back a typed character if and only if the line was not 73
  bytes long, and a tab if and only if it was not 69, 73 or 122 bytes long
  (`LineEditor.BackspaceUndoesCharacter`, `LineEditor.BackspaceUndoesTab`;
  `CharacterStays`, `TabStays`);
- a directory read delivers the name unless more than 32 bytes are asked for,
  the name fills its field and the file type is not zero
  (`FileSystem.EntryIsName`; `LongNameIsListedWithItsType`);
- a file is taken for a program if and only if it begins with the four magic
  bytes, as long as it has four bytes; of a shorter one the missing bytes are
  whatever the stack held (`FileSystem.ExecutableIsMagic`; `EmptyFileMayRun`);
- after a tick the user video page is the terminal's own if and only if that
  terminal is displayed: `src/pit.c:72` adds the terminal's number to the address
  and not to the page number (`Paging.TickPageIsOwn`; `TickMapsWrongPage`);
- text wraps onto its own row: `src/lib.c:268` reduces the column before
  `src/lib.c:269` uses it for the row (`Terminals.TextWrapsOnItsRow`);
- the timer selects a booted terminal if and only if terminal 1 is booted or a
  booted one is still ahead (`KernelState.NextThreadIsCyclic`, which ends with a
  case that fails);
- the clock handler divides by zero if and only if the running terminal's
  frequency times the number of active terminals exceeds 1024
  (`Rtc.Clock.RtcHandler`; `AcceptedFrequencyFaults`).

## Model

| member | source | states |
|---|---|---|
| Kernel.Serve | src/sys_calls.c:17-604 | from power-up, every sequence of execute, halt, timer, terminal, file and `vidmap` entries takes the kernel's variables through exactly the states of the call-stack model, the outcomes and the bytes it delivers are the model's, the invariant that ties them holds throughout, and the running program is isolated exactly when the last `vidmap` found the page-size bit zero; the last entry may be one that hangs the machine |
| Kernel.Enter | src/sys_calls.c:348-604 | each entry point, called in any consistent state with any admissible request, is one step of the model, with the outcome built from what the call returned and wrote |
| CallStackHistories.HaltGoesBackToItsExecute | src/sys_calls.c:17-79 | in any run since the boot, the halt of an auxiliary program resumes exactly the frame saved by the very execute that started it, with the status itself as code up to 256 and modulo 256 beyond, the program having lived ever since, and leaves its terminal's stack as that execute found it |
| CallStackHistories.ThreadGoesBackToWhereItLeft | src/pit.c:17-84 | in any run since the boot, a parked thread gets the processor back by a timer tick and nothing else; it resumes exactly the frame saved by the last event, a tick or the boot of another terminal, that took the processor from it, and finds its programs as it left them |
| CallStackHistories.SwitchesAreReturns | src/pit.c:44-80 | every switch of the timer is such a return |
| CallStackHistories.EveryProgramWasStarted | src/sys_calls.c:265-329 | every live auxiliary process was started by an execute of the run, which saved the frame the process will return to, and its callers have been in place ever since |
| CallStackHistories.EveryThreadWasLeft | src/pit.c:44-50 | every parked thread was left by an event of the run and has not run since |
| CallStackRuns.HaltResumesItsCaller | src/sys_calls.c:326-339 | whatever happens between a program's start and its halt, other terminals and nested programs included, the halt resumes exactly the frame saved by the execute that created it; the code it hands over is the status itself up to 256 and the status modulo 256 beyond; and its terminal's stack is what it was before the call, open files included |
| CallStackRuns.RunLeavesCallers | src/sys_calls.c:265-275 | no run that stays above a caller disturbs that caller, its saved frame or its files |
| CallStackRuns.TickResumesWhereSwitchedOut | src/pit.c:44-80 | a thread the timer comes back to resumes exactly the frame saved when it lost the processor, to a tick or to the boot of another terminal, with its processes unchanged |
| CallStackRuns.ParkedThreadUntouched | src/pit.c:44-61 | no run of other threads changes a parked thread's processes or its saved frame |
| CallStackRuns.TicksAreFair | src/pit.c:30-42 | with k booted terminals and no new boot, k consecutive ticks select each booted terminal exactly once, whatever else happens in between |
| CallStackRuns.TicksRotate | src/pit.c:30-42 | the terminals selected over a run are the cyclic successors of the running one, in order |
| CallStackRuns.RotationVisitsAll | src/pit.c:30-42 | going round the booted terminals once visits each of them once |
| CallStackRuns.NextIsNearest | src/pit.c:30-42 | the next terminal is the nearest booted one above, or the lowest booted one when there is none above |
| CallStackRuns.ExecuteOutcome | src/sys_calls.c:172-248 | execute succeeds exactly when the file of that name passes the checks and one of three auxiliary numbers is free; the number it gives was unused and is the only one added; a refused call changes nothing |
| CallStackRuns.BaseShellReboots | src/sys_calls.c:50-54 | a booted terminal always has its own shell at the bottom; halting that shell starts it again under the same number with only descriptors 0 and 1, and touches no other terminal |
| CallStackRuns.BootedTerminalsStay | src/keyboard.c:260-270 | over any run booted terminals stay booted, and only selecting a terminal adds one |
| CallStackRuns.RunSplits | src/sys_calls.c:139-339 | runs compose, states and outcomes alike |
| CallStacks.StepKeepsValid | src/sys_calls.c:187-282 | every step keeps each stack rooted in its terminal's shell, auxiliary numbers above it, no process in two places, and every file table sound |
| CallStacks.BootStateValid | src/kernel.c:172 | so is the state after the first shell has started |
| CallStacks.FreePid | src/sys_calls.c:214-237 | the number for a new auxiliary process is the least unused one from 4 to 6 |
| CallStacks.HaltCode | src/sys_calls.c:30-33 | the code a caller gets is the status itself for every status up to 256, 256 included, and else the status modulo 256 |
| ControlBlocks.LinksAreInverse | src/sys_calls.c:265-275 | among live processes, q is p's child exactly when p is q's parent |
| ControlBlocks.ChainEnds | src/sys_calls.c:620-634 | blocks without a parent are exactly the terminals' shells, blocks without a child exactly the tops of the stacks |
| ControlBlocks.PushRepresents | src/sys_calls.c:265-282 | the blocks written by execute represent the pushed stack |
| ControlBlocks.PopRepresents | src/sys_calls.c:35-76 | the blocks left by halt represent the popped stack |
| ControlBlocks.SwitchRepresents | src/pit.c:44-61 | saving the running thread's frame in its block represents the switched state |
| ControlBlocks.BootRepresents | src/keyboard.c:260-270 | booting a terminal, which overwrites the interrupted leaf's `ebp` as well as its `schedEBP`, still represents all stacks |
| KernelState.WhatRuns | src/sys_calls.c:250-257 | in every consistent state the running program sees exactly frame PID+1 between 128 MB and 132 MB and is isolated exactly when the video entry is not a large page, masking any stack pointer on its kernel stack finds its block, the auxiliary count is the number of live auxiliary processes and at most 3, and both masks name exactly the booted terminals |
| KernelState.NextThreadIsCyclic | src/pit.c:30-42 | the rotation computed from the mask is the cyclic successor among booted terminals, and selects a booted one exactly when terminal 1 is booted or a booted one is ahead; with terminal 2 alone it selects terminal 1 |
| KernelState.BitsAreShifts | src/pit.c:30-42 | the mask bits of terminals 1, 2 and 3 are 1 shifted by 0, 1 and 2 |
| KernelState.PushConsistent | src/sys_calls.c:139-339 | what execute does to masks, marks, count, blocks, page and `esp0` is the model's execute, refusal included |
| KernelState.PopConsistent | src/sys_calls.c:56-76 | what halt does for an auxiliary process is the model's pop; the count again equals the marked slots |
| KernelState.RebootConsistent | src/sys_calls.c:50-54 | clearing the live bit of a halted shell and executing again is the model's reboot under the same number, and the masks are equal again |
| KernelState.TerminalConsistent | src/keyboard.c:260-270 | the terminal boot in the keyboard handler is the model's boot |
| KernelState.ReadyToReboot | src/sys_calls.c:50-54 | after a base shell has been halted the masks differ in exactly the bit of its own terminal, and the execute that follows finds what it relies on |
| KernelState.HaltClearsOneBit | src/sys_calls.c:50-54 | clearing the bit of a booted terminal in the live mask makes the masks differ in that bit alone |
| KernelState.BootConsistent | src/kernel.c:172 | from zeroed blocks, the first execute establishes the invariant |
| Kernel.Kernel.Boot | src/kernel.c:148-172 | the first shell starts as process 1 with the invariant established |
| Kernel.Kernel.Execute | src/sys_calls.c:172-339 | the whole new state of the kernel variables for every outcome: not found, not a program, full, auxiliary program, base shell, decided from the image |
| Kernel.Kernel.ChoosePid | src/sys_calls.c:187-248 | refuses exactly when a fourth auxiliary process would start and then has changed nothing; otherwise the number was free and masks, marks and count record it |
| Kernel.Kernel.ClaimAuxiliary | src/sys_calls.c:214-241 | the count exceeds the limit exactly when the three slots are taken; otherwise the first free one is marked |
| Kernel.Kernel.ClaimShell | src/sys_calls.c:192-213 | the shell being booted, or the one whose bit differs, gets its own number back, and the masks agree afterwards |
| Kernel.Kernel.EnterProgram | src/sys_calls.c:250-282 | page, `esp0`, block, child link and saved frame of a started program, and nothing else |
| Kernel.Kernel.SysExecute | src/sys_calls.c:139-339 | the system call is one execute step of the model |
| Kernel.Kernel.Halt | src/sys_calls.c:17-79 | the system call is one halt step of the model, for auxiliary programs and base shells; the code it returns is the status itself up to 256 and modulo 256 beyond, and the status is left in the block |
| Kernel.Kernel.CloseAll | src/sys_calls.c:35-45 | every descriptor of the halted process is closed and no other block changes |
| Kernel.Kernel.ReturnToParent | src/sys_calls.c:56-76 | page, stack, marks, count and links go back to the parent, and the frame returned is the one saved at the call |
| Kernel.Kernel.PitHandler | src/pit.c:17-84 | a timer interrupt is one tick of the model, and on a switch the user video page becomes the one the handler computes |
| Kernel.Kernel.SelectTerminal | src/keyboard.c:257-270 | selecting a terminal displays it and is one terminal-boot step of the model, or nothing when it is booted |
| Kernel.Kernel.SysVidmap | src/sys_calls.c:552-604 | refuses exactly the addresses outside the program's 4 MB and the one just past them, and then changes nothing; otherwise the video entry is a page table exactly when the stack's page-size bit was zero, and the program's 4 KB from 136 MB on are then its own terminal's page; it hangs exactly when the store is not mapped |
| KernelState.VidmapOutcome | src/sys_calls.c:569-600 | in every consistent state a non-null address is accepted exactly when it or the byte before it lies under directory entry 32, and the machine hangs exactly when one of the four bytes stored there faults |
| Kernel.Kernel.GetTopProcessPcb | src/sys_calls.c:620-626 | following child links from any block of a chain ends at the top of its stack |
| Kernel.Kernel.GetBaseProcessPcb | src/sys_calls.c:628-634 | following parent links ends at the terminal's shell |
| Kernel.Kernel.RunningTerminal | src/lib.c:208-225 | the terminal found by masking the stack pointer and following parent links is always the scheduler's current one |
| Kernel.Kernel.SysOpen | src/sys_calls.c:420-472 | open is one open step of the running process's table, with the same return code (`OpenTakesLowestSlot` says which descriptor that is) |
| Kernel.Kernel.SysClose | src/sys_calls.c:481-506 | close is one close step, with the same return code |
| Kernel.Kernel.SysRead | src/sys_calls.c:348-376 | read delivers what the table's stream delivers, stores the new position and leaves the rest of the buffer alone |
| Paging.MaskFindsPcb | src/sys_calls.c:146-156 | masking any stack pointer inside a process's 8 KB block gives that process's control block and no other |
| Paging.MaskEspIsBitwiseAnd | src/lib.c:211-218 | on 32-bit registers the mask is the rounding down to 8 KB used here |
| Paging.PageEntry.Setup | src/paging.c:23-36 | the packed entry is a present 4 MB page of the given frame with the given privilege (section 4.3 of the Intel SDM, volume 3A) |
| Paging.EntryExamples | src/paging.c:23-36 | present is bit 0, user access bit 2, page size bit 7 and the frame starts at bit 22, on literal entries |
| Paging.SetupKernelPaging | src/paging.c:75-113 | entry 0 is a supervisor page table, entry 1 the supervisor 4 MB kernel page, the others are kept |
| Paging.UserWindow | src/sys_calls.c:250-254 | a user access reaches the process's own frame at the same offset if it lies in the window; from 136 MB on at most one video page, or the 4 MB the video entry names if it is a large page; and faults everywhere else |
| Paging.IsolatedWhenSealed | src/sys_calls.c:579-584 | every user access faults or ends in the program's own frame or in video memory if and only if the video entry is not a large page |
| Paging.UserTableInstalled | src/sys_calls.c:579-584 | the entry `vidmap` writes is a page table if and only if the stack held a zero at the bit it leaves alone, and keeps the program's own window |
| Paging.LargeBitExposesKernel | src/sys_calls.c:579-584 | with that bit set and the table at 0x41D000 the program reaches physical address 0x400000 |
| Paging.StoreIsMapped | src/sys_calls.c:573-600 | the four bytes `vidmap` stores are mapped if and only if the address is at least four below the end of the window |
| Paging.AddressSpacesDisjoint | src/sys_calls.c:250-254 | as long as both video entries are page tables, two programs never reach the same physical byte through any user address but in the video page, which is in no program's frame, and never the kernel's 4 MB with its stacks and control blocks |
| Paging.TickPageIsOwn | src/pit.c:68-73 | the frame the timer handler maps for video memory is the one `vidmap` maps if and only if the thread's terminal is displayed |
| Paging.TickMapsWrongPage | src/pit.c:68-73 | with terminal 1 displayed, a tick to terminal 2 maps physical address 0xB8002000 instead of 0xBA000 |
| Console.OwnPageHoldsScreen | src/sys_calls.c:591-595 | the page `vidmap` maps is the one that holds the screen of the program's terminal |
| Paging.KernelStacksDisjoint | src/sys_calls.c:256-266 | the 8 KB blocks of two processes do not overlap and lie below 8 MB |
| Paging.PageInstalled | src/sys_calls.c:250-254 | writing a user page into entry 32 gives exactly that one user window |
| FileSystem.SpanMeaning | src/file_sys.c:104-134 | a read range delivers the longest run of bytes before the first block number the image does not have (`TransferIsChained` says which bytes these are) |
| FileSystem.ReadData | src/file_sys.c:92-134 | reads exactly that run, capped at the file size as the unsigned comparison caps it, and changes no other byte of the buffer; an inode number out of range is an error |
| FileSystem.ReadsCompose | src/file_sys.c:92-134 | a read of a bytes that is not cut short, then b bytes at the advanced offset, is a read of a+b bytes |
| FileSystem.ReadsStayInFile | src/file_sys.c:103-107 | a read delivers only bytes of the file exactly when it does not start beyond the end, asks for nothing, or finds nothing stored there |
| FileSystem.SpanOfContents | src/file_sys.c:92-134 | what a read delivers is a slice of the file's contents, however it straddles 4096-byte blocks |
| FileSystem.ChainedBytes | src/file_sys.c:109-125 | data blocks put one after the other, up to the first block number the image does not have: byte k is byte k modulo 4096 of block k / 4096 of the list |
| FileSystem.ContentsAreChained | src/file_sys.c:92-134 | the contents of a file are its blocks one after the other, up to the first block number the image does not have, cut to the recorded size |
| FileSystem.TransferIsChained | src/file_sys.c:92-134 | a read at any offset delivers the slice, from the offset within the first block, of the blocks from there on put one after the other |
| FileSystem.ContentsComplete | src/file_sys.c:92-134 | contents are as long as the recorded size exactly when every block number in use is valid |
| FileSystem.LookupIsLeast | src/file_sys.c:30-49 | a lookup finds the least entry with that name and fails exactly when the name is not 1 to 32 characters long or there is none |
| FileSystem.ReadDentryByName | src/file_sys.c:30-49 | the comparison loop over 32-byte, optionally terminated names is that lookup; a failure leaves the caller's entry alone |
| FileSystem.ReadDentryByIndex | src/file_sys.c:60-80 | copies exactly that entry, or fails beyond the last |
| FileSystem.FileRead | src/file_sys.c:267-297 | moves the position by what it delivered, or rewinds to 0 at the end |
| FileSystem.DirRead | src/file_sys.c:148-189 | delivers the string found at the next entry, for any number of bytes asked, or nothing and rewinds after the last |
| FileSystem.EntryIsName | src/file_sys.c:174-183 | that string is the entry's name exactly unless more than 32 bytes are asked for, the name fills its field and the file type is not zero |
| FileSystem.LongNameIsListedWithItsType | src/file_sys.c:174-183 | a regular file whose name has 32 characters is listed with a 33rd byte |
| FileSystem.EntryShowsType | src/file_sys.c:174-183 | a name that fills its field is followed by its type byte whenever more than 32 bytes are asked for |
| FileSystem.CheckExecutable | src/sys_calls.c:172-185 | the checks of execute, over a header buffer that held anything |
| FileSystem.ExecutableIsMagic | src/sys_calls.c:172-185 | a file of at least four bytes passes exactly when it begins with the magic bytes; a shorter one when its bytes and the stack's together do |
| FileSystem.ExecutableByName | src/sys_calls.c:172-185 | a name is taken for a program exactly when the file of its least entry's inode begins with 7F 45 4C 46, as long as that file has four bytes, and never when there is no such entry or inode |
| FileSystem.EmptyFileMayRun | src/sys_calls.c:172-185 | an empty file passes when the stack happens to hold a header |
| Bytes.Strncmp | src/lib.c:552-566 | zero exactly when the strings agree up to n characters, and else the difference at the first disagreement |
| Bytes.Strlen | src/lib.c:379-384 | the length of the bytes before the first NUL |
| Descriptors.DescriptorsAreIndependent | src/sys_calls.c:348-376 | whatever else a program opens, closes and reads, an open file or directory delivers exactly what it would deliver alone |
| Descriptors.FileStream | src/file_sys.c:267-297 | reads of any sizes deliver the contents over and over: one copy for each rewind, then the contents up to the position |
| Descriptors.ReadToEndYieldsFile | src/file_sys.c:267-297 | a program that reads until it is given nothing has read exactly the contents, and the next read starts over unless some byte of the file is not stored |
| Descriptors.FileReadProgress | src/file_sys.c:267-297 | a non-empty request is answered with nothing only at the end of what is stored, and with all it asks for otherwise as far as that goes |
| Descriptors.DirectoryStream | src/file_sys.c:148-189 | read number k of a directory delivers entry k, going round with one empty read after the last, and what it delivers is the name under exactly the condition above |
| Descriptors.OpenTakesLowestSlot | src/sys_calls.c:420-472 | open succeeds exactly when a slot from 2 to 7 is free and the name is that of a clock, directory or file; it takes the lowest, puts there the clock, the directory at its first entry or the entry's own inode at position 0, as the type is 0, 1 or 2, and changes no other |
| Descriptors.OpenedFileIsRead | src/sys_calls.c:448-472 | after a successful open of a regular file, and whatever else the program does, reading until nothing comes delivers the contents of the inode its entry names |
| Descriptors.OpenedDirectoryIsListed | src/sys_calls.c:448-472 | after a successful open of a directory, and whatever else the program does, read number k lists entry k, going round with one empty read after the last |
| Descriptors.ClockIsOpened | src/sys_calls.c:448-472 | after a successful open of the clock, and whatever else the program does, reads are answered by the clock |
| Descriptors.CloseFreesSlot | src/sys_calls.c:481-506 | a close of an open descriptor from 2 to 7 frees its slot and keeps all others, a second close fails, and the next open takes the slot unless a lower one is free; any other close fails and changes nothing |
| Descriptors.ReadAnswers | src/sys_calls.c:348-376 | a read is refused exactly on a closed or unknown descriptor, on descriptor 1 and for a negative size, is answered by the terminal or the clock on theirs, and changes no other descriptor |
| Descriptors.StepKeepsTableOk | src/sys_calls.c:420-506 | descriptors 0 and 1 stay the terminal, and every open file names an inode of the image |
| Screen.ShowAll | src/lib.c:207-316 | for any interleaving of program output, echo, clears and terminal switches, each terminal's screen and cursor are the fold of its own events alone (`Show` and `OutputReachesItsTerminal` say whose an event is) |
| Screen.Show | src/lib.c:207-316 | one event: a byte a program writes is put on its own terminal's screen, an echo or a clear acts on the displayed terminal, a selection on none, and every other screen is kept |
| Screen.Display.TerminalWrite | src/keyboard.c:339-360 | a program's bytes are put on its own terminal's screen, tabs as spaces, whichever is displayed, and on no other; the number written is returned, -1 for none |
| Screen.OutputReachesItsTerminal | src/lib.c:207-316 | over any run of writes and selections a screen gets exactly the bytes written by programs of its terminal, in order |
| Screen.WritesCommute | src/lib.c:207-316 | two neighbouring writes by programs of different terminals may be swapped anywhere in a run |
| Screen.Display.Putc | src/lib.c:207-316 | both branches, visible page and backing page, are the one abstract operation on the addressed terminal; the cursor stays within 80 by 25 |
| Screen.Display.ClearScreen | src/lib.c:23-58 | the displayed terminal is blanked and, for a base shell, shows its prompt; no other changes |
| Screen.Display.RubOut | src/keyboard.c:191-231 | stepping back, printing an empty character and stepping back again, n times, empties the n cells before the cursor of the displayed terminal and puts the cursor there |
| Screen.Display.JoinRows | src/keyboard.c:181-190 | the cursor goes to column 72 of the row above and that cell is emptied |
| Terminals.RubbedOutByCells | src/keyboard.c:191-231 | rubbing out empties exactly the last cells before the cursor, cell by cell |
| Terminals.RubOutUndoesPut | src/keyboard.c:191-231 | rubbing out what was just printed on the row puts the cursor back and empties exactly the cells that were printed |
| Terminals.JoinedByCells | src/keyboard.c:181-190 | going back over a soft break empties the cell in column 72 of the row above, puts the cursor there and changes no other cell |
| Terminals.WipedByCells | src/lib.c:23-58 | after a clear every cell is blank but, for a base shell, those of the prompt "391OS> " at the top left, with the cursor behind it |
| Terminals.PutAllOnRow | src/lib.c:264-271 | text that fits on the row appears in the cells from the cursor on and in no other, and the cursor is behind it |
| Screen.Display.SelectTerminal | src/keyboard.c:249-258 | the two page copies change which terminal is displayed and no terminal's screen |
| Screen.ScrollPage | src/lib.c:236-262 | the in-place loops drop the first row and append a blank one |
| Screen.SwapKeepsPages | src/keyboard.c:249-258 | after the swap every terminal's page is where the new selection looks for it |
| Terminals.PutByCells | src/lib.c:236-271 | printing, cell by cell: a printable character changes the cell under the cursor and no other; a line break goes down one row, and on the last row drops the first, moves the others up and blanks the last |
| Terminals.TextWrapsOnItsRow | src/lib.c:264-271 | printable text of any length stays on its row, its column going round modulo 80 |
| Keyboard.Handler.KeyboardHandler | src/keyboard.c:88-272 | one interrupt on the three-row buffer is one key press of the line editor; index and bytes stay in range, what it prints and erases is what the key is to echo, and Enter leaves the line, a newline and a terminator for the reader |
| Keyboard.Handler.EnterLine | src/keyboard.c:132-138 | the line is handed over whole and an empty one starts |
| Keyboard.Handler.WrapLine | src/keyboard.c:140-145 | a line of 73 bytes gets a soft break and nothing else changes |
| Keyboard.Handler.ClearLine | src/keyboard.c:147-155 | the row is emptied, the other rows are kept |
| Keyboard.Handler.InsertTab | src/keyboard.c:157-178 | four bytes, or the three that fit at byte 122 |
| Keyboard.Handler.Backspace | src/keyboard.c:180-233 | removes one, two or four bytes, never more than the line has |
| Keyboard.Handler.TypeKey | src/keyboard.c:237-247 | appends the typed character if one byte is left (`Typing` says which character that is) |
| Keyboard.Handler.UpdateModifiers | src/keyboard.c:107-130 | shift, caps lock, control and alt follow their keys |
| Keyboard.HandedOverBytes | src/keyboard.c:132-138 | what Enter leaves for the reader is, from the start of the row, the line, a line feed and a zero |
| Typing.LettersFollowShiftAndCaps | src/keyboard.c:6-31 | each of the 26 letter keys types a letter from a to z with neither or both of shift and caps lock, and the same letter in upper case with exactly one of them |
| Typing.CapsIsForLetters | src/keyboard.c:6-31 | on every other key caps lock alone changes nothing |
| Typing.AllKeysSpell | src/keyboard.c:6-13 | all keys of the rows and the space bar, pressed in order on the empty board without modifiers, give the literal line |
| Typing.AllKeysSpellWithShift | src/keyboard.c:15-22 | and with shift held the literal shifted line |
| Typing.PressModifies | src/keyboard.c:107-130 | which scan codes press and release shift, control and alt and turn caps lock over, as numbers; no other key does |
| Typing.PressSelects | src/keyboard.c:249-257 | alt with scan codes 3B, 3C and 3D displays terminals 1, 2 and 3, and nothing else does |
| Typing.PressEnters | src/keyboard.c:132-138 | Enter empties the line, and the lines of other terminals stay, but for the first byte of the next row, which a line of 126 bytes zeroes |
| Typing.PressClears | src/keyboard.c:147-155 | Ctrl-L empties the line and no other |
| Typing.PressKeepsOthers | src/keyboard.c:88-272 | every key but Enter leaves the lines of the other terminals alone |
| Typing.EchoIsWhatWasAdded | src/keyboard.c:140-247 | but for Enter, backspace and Ctrl-L, what a key prints is what it adds to the line, a tab as one space for each byte |
| Typing.EnterEcho | src/keyboard.c:132-138 | Enter prints a line feed and nothing else |
| Typing.ClearEcho | src/keyboard.c:147-155 | Ctrl-L clears the screen, after the soft break if there is one |
| Typing.TabAdds | src/keyboard.c:157-178 | off the soft break the tab key adds four tab bytes, three on a line of 122 and none on a longer one or where the column is too far right |
| LineEditor.PressAll | src/keyboard.c:88-272 | for any sequence of scan codes every line stays shorter than its buffer and sound: bytes missing from tabs are made up for by ordinary characters |
| LineEditor.DropTab | src/keyboard.c:191-222 | a line that ends in a tab has at least four bytes, and the four-byte deletion leaves a sound line |
| LineEditor.DropBreak | src/keyboard.c:181-190 | a line that ends in a soft break has 74 bytes, and the two-byte deletion leaves a sound line |
| LineEditor.TypedIsOrdinary | src/keyboard.c:6-31 | no key, under any modifiers, types a tab or a line feed |
| LineEditor.BackspaceUndoesCharacter | src/keyboard.c:180-247 | backspace takes back a typed character if and only if the line was not at its 73rd byte |
| LineEditor.BackspaceUndoesTab | src/keyboard.c:157-233 | backspace takes back a tab if and only if the line was not 69, 73 or 122 bytes long |
| LineEditor.TypingGrows | src/keyboard.c:140-145 | every press of a letter adds one byte, and one more for the soft break at byte 73 |
| LineEditor.CharacterStays | src/keyboard.c:140-247 | after 73 presses from the empty board backspace does not take back the next character |
| LineEditor.TabStays | src/keyboard.c:140-233 | after 69, 73 or 121 presses from the empty board the line has 69, 73 or 122 bytes and backspace does not take back a tab |
| Console.KeyPressed | src/keyboard.c:88-272 | one key edits the line of the displayed terminal, with the tab key's test on the real column; what it prints and erases goes to the screen displayed when it is pressed and to no other, and is exactly the key's echo; a selected terminal is displayed, and booted if it never was; backspace keeps the cursor on the screen exactly under the stated condition |
| Console.Perform | src/keyboard.c:132-178 | what a key prints is the fold of its echo on the displayed terminal |
| Console.BackspaceLeavesScreen | src/keyboard.c:223-231 | a character in the last column and then backspace take the cursor off the screen |
| Console.KeyPrintsWhatItAdds | src/keyboard.c:88-272 | but for Enter, backspace and Ctrl-L, the displayed screen after a key is the one before with what the key added to the line put on it |
| Console.TabFollowsColumn | src/keyboard.c:157-178 | a tab is inserted exactly when the cursor is left of column 69 and the line is shorter than 123 bytes |
| Console.BackspaceTakesCharacterBack | src/keyboard.c:180-233 | a character on a line of fewer than 72 bytes, typed left of the last column, and then backspace: the cursor is back, the cell of the character is empty and every other is unchanged |
| Console.BackspaceTakesTabBack | src/keyboard.c:180-233 | the same for a tab and its four cells, left of column 69 on a line of fewer than 69 bytes |
| Console.ActiveAreBooted | src/RTC.c:57-62 | the number of active terminals that the clock handler computes from a mask is how many terminals are booted |
| Grep.DoOneFile | syscalls/ece391grep.c:9-66 | for a file without NUL bytes, any refills of the buffer and any byte behind it, what is written is exactly the report of the pieces that contain the pattern, each once and in order, or nothing when the pattern's first byte is 128 or more, and the search ends |
| Grep.SearchBuffer | syscalls/ece391grep.c:30-57 | searching the buffer reports what it consumes and keeps an unfinished last line, so that nothing is lost or seen twice, unless a newline behind a full buffer ends it there, once |
| Grep.SearchFill | syscalls/ece391grep.c:22-57 | one refill, with what is still to be reported after it |
| Grep.SearchLine | syscalls/ece391grep.c:41-52 | a line is reported exactly when the pattern occurs in it and the pattern's first byte is below 128 |
| Grep.Strcpy | syscalls/ece391support.c:14-17 | the overlapping downward copy moves the string with its terminator and nothing else |
| Grep.Strncmp391 | syscalls/ece391support.c:35-46 | zero exactly when the strings agree up to n characters |
| GrepLines.ReportIsExact | syscalls/ece391grep.c:9-66 | the report is that of the lines that contain the pattern if and only if no line of more than 1024 bytes contains it, and the pattern's first byte is below 128 or no line contains it |
| GrepLines.PiecesFindTheLines | syscalls/ece391grep.c:20-60 | the same for the list of reported lines |
| GrepLines.LinesAreTheFile | syscalls/ece391grep.c:34-40 | lines hold no line feed, and with one after each they are the file again, but for one after a last line that had none |
| GrepLines.ContainsMeans | syscalls/ece391grep.c:41-52 | a pattern with anything before and after it is a line that contains it |
| GrepLines.ContainsOnlyThen | syscalls/ece391grep.c:41-52 | and no other line does |
| GrepLines.FoundAlone | syscalls/ece391grep.c:41-52 | of one line the search finds that line exactly when it contains the pattern |
| GrepLines.FoundSplits | syscalls/ece391grep.c:20-60 | of two lists of lines it finds what it finds in the first and then in the second |
| GrepLines.ReportAlone | syscalls/ece391grep.c:41-52 | a reported line is written as the file name, a colon, the line and a line feed |
| GrepLines.ReportSplits | syscalls/ece391grep.c:41-52 | reports are written one after the other |
| GrepLines.ShortLinesAreFine | syscalls/ece391grep.c:20-60 | when every line is shorter than 1024 bytes the condition on long lines holds |
| GrepLines.LongLineIsCut | syscalls/ece391grep.c:20-60 | a line of 1025 equal bytes is not reported as one line |
| GrepLines.HighByteIsMissed | syscalls/ece391grep.c:43 | a file of the one byte 195, searched for that byte, is reported to have no such line |
| GrepLines.CutReportIsExact | syscalls/ece391grep.c:34-40 | with a newline behind the buffer the report is exact if and only if, besides, the line cut by it does not contain the pattern |
| GrepLines.CutPiecesFindTheLines | syscalls/ece391grep.c:34-40 | the same for the list of reported lines |
| GrepLines.CutLineIsMissed | syscalls/ece391grep.c:34-40 | an empty line and one of 1024 equal bytes: no line is too long, and the second is cut |
| Numbers.Itoa | src/lib.c:324-354 | leaves the numeral and its terminator, for every 32-bit value and every radix from 2 to 36, and changes nothing around them |
| Numbers.Strrev | src/lib.c:360-373 | the in-place exchange reverses the string and nothing else |
| Numbers.NumeralParses | syscalls/ece391support.c:49-80 | reading the digits back gives the value, and there is no leading zero |
| Numbers.NumeralIsUnique | src/lib.c:324-354 | no other string without leading zeros denotes the value |
| Numbers.AppendDigit | src/lib.c:324-354 | a number with one digit more is the radix times the number plus the digit |
| Numbers.DigitCharacters | src/lib.c:324-354 | the digits are the characters 0 to 9 and A to Z |
| Numbers.NumeralExamples | src/lib.c:324-354 | 2748 is ABC in hexadecimal and 2748 in decimal |
| Numbers.PrintAlternateHex | src/lib.c:111-130 | always exactly 8 hexadecimal digits of the same value |
| Numbers.PrintDecimal | src/lib.c:143-156 | reads back as the same value for every signed 32-bit value, the least included |
| BlockMoves.Memcpy | src/lib.c:475-512 | alignment, dword and tail phases together move the block, for every length and alignment, unless the destination starts inside the source |
| BlockMoves.Memmove | src/lib.c:521-539 | the destination gets the original source bytes for every overlap |
| BlockMoves.MovedBytes | src/lib.c:521-539 | byte by byte: the block is where it was sent, and all else is as it was |
| Rtc.Clock.RtcWrite | src/RTC.c:124-149 | accepts exactly the powers of two from 2 to 8192; otherwise nothing changes |
| Rtc.AcceptedArePowers | src/RTC.c:124-149 | accepted are exactly the thirteen powers of two from the first on |
| Rtc.Clock.RtcHandler | src/RTC.c:53-76 | one interrupt advances the running terminal's counter and releases its reader at a multiple of the period; it divides by zero exactly when frequency times active terminals exceeds 1024 |
| Rtc.ReaderGoesOn | src/RTC.c:53-76 | over any run of interrupts charged to varying terminals, whatever other terminals read and write and while terminals boot, a reader goes on at the latest after all but one interrupt of a period for each number of active terminals, and one more |
| Rtc.SlackIsPeriod | src/RTC.c:65 | with the number of active terminals unchanged that is one period |
| Rtc.StillWaiting | src/RTC.c:53-76 | as long as a reader waits, no more than that many interrupts have been charged to its terminal |
| Rtc.HandleAll | src/RTC.c:53-172 | the handler, frequency writes and the start of reads take the clock's arrays through exactly the states that theorem speaks of, up to a division by zero |
| Rtc.OwnInterruptsOnly | src/RTC.c:53-76 | a blocked terminal's counter and flag depend on the interrupts charged to it and on nothing other terminals do |
| Rtc.AcceptedFrequencyFaults | src/RTC.c:65 | 2048 is accepted, and the next interrupt divides by zero whichever terminals are active |
| Rtc.ReleasedWithinPeriod | src/RTC.c:65-70 | wherever the counter stands, wrap-around included, one period of increments finds a multiple of the period |
| Rtc.HeldUntil | src/RTC.c:53-76 | and not before the counter reaches a multiple of the period |

## Left out

- Kernel.Kernel.Execute: taking the file name and the arguments out of the command (`src/sys_calls.c:158-170`), `getargs` and the copy of the program image are not modelled; a name is a C string of any length.
- Kernel.Kernel.Halt: execute and halt run with interrupts off and are single steps; the halt of a base shell with the execute that follows is one step, and the file system is taken to have a `shell` that is a program.
- Kernel.Kernel.SelectTerminal: keys before the first shell has started are not modelled; Alt-F2 then would boot terminal 2 alone, and `KernelState.NextThreadIsCyclic` says when the timer's choice is still a booted terminal.
- Kernel.Kernel.SysVidmap: the address handed back through the pointer is not stored, and what a program writes to the kernel's 4 MB when it can reach them is not modelled.
- Kernel.Kernel.SysRead: what the terminal and the clock answer is a parameter. Null pointers are not modelled.
- Kernel.Enter: names come as byte sequences without NUL and are handed over as C strings.
- Control blocks are values in a map keyed by address, so stack contents below a control block, `iret` and the assembly linkage are not captured.
- Paging.PageEntry.Setup: bits 13 to 20 are left as they were, and the entry is read as one for 32-bit physical addresses.
- FileSystem.ReadData: beyond the end of the file the range must fit the inode's block list; the code reads past it otherwise. Sizes, block lists and file types that do not fit the format are excluded by `WellFormed`.
- Screen.Display.Putc: the hardware cursor and direct user writes through `vidmap` are not modelled; `cur_process_local` before the first boot is the parameter `local`.
- Keyboard.Handler.KeyboardHandler: `terminal_read`, which also reads one column too far, is left out. A full third row's terminator falls one byte behind the buffer, which the model has as one byte more; on the first two rows it zeroes the first byte of the next row, and the model follows.
- Console.KeyPressed: when backspace takes the cursor off the screen nothing is said of that screen any more.
- Grep.DoOneFile: opening and closing the file, their failure messages, and the loop of `main` over the directory are not modelled. The file has no NUL bytes: one would end the copy, the comparison and the printing of its line early.
- BlockMoves.Memcpy: nothing is stated when the destination starts inside the source; `memmove` is for that. The direction flag that `memmove` leaves set is not modelled.
- Numbers.Itoa: the digit table is a function; `%x`, `%u`, `%c`, `%s` and the loop over the format string are left out, since they add only cases.
- Rtc.ReaderGoesOn: a run ends at a division by zero.
- The dispatch of `write` and its stubs for files, directories and the clock, `set_handler`, `sigreturn`, exception messages, port I/O, interrupt controllers and descriptor-table layouts.
