# A verified model of a multi-terminal x86 kernel and its user programs

The kernel runs up to six processes on three terminals, one stack of processes per terminal, switches
between the terminals on every PIT tick, gives every process its own 4 MB frame and 8 KB kernel stack,
and serves a read-only file system. This project models the parts of it that keep state across calls,
in the imperative form the C and assembly sources have, and proves them against small abstract machines.

| modules | what they model |
|---|---|
| `Processes`, `KernelState`, `Kernel`, `Loader` | process table, scheduler and control blocks: `launch`, `execute`, `halt`, exception exit, `vidmap`, `getargs`, the tick, and the mappings of a keyboard interrupt. `Processes` is the abstract machine of three stacks; `KernelState` says how the tables represent it; the methods of class `Kernel` each refine one step of it |
| `Paging`, `Bits` | page directory and tables, and the two-level walk of section 4.3 (32-Bit Paging) of the Intel SDM Volume 3A |
| `Displays`, `Screens`, `Console` | three logical screens over one video page. `Displays` is one screen with its cursor and line editor, `Screens` three of them with a visible and a scheduled one; class `Console` holds the four physical pages and the mapping at 0xB8000, and its handlers refine `Screens.Step` |
| `FileSystem`, `DiskImage`, `FileTable`, `Descriptors` | the block-walking reader against the flat file, directory lookup, disk images as they are written, and a process's descriptor table with the history of every descriptor |
| `Strings`, `Commands` | string routines, the command line parser of `execute`, and `getargs` |
| `Lines`, `GrepProgram` | grep and cat over the modelled `open`, `read` and `close`; `Lines` says what a line search means without buffers |
| `Blink` | the fish program's list of blinking characters in its fixed pool |
| `TextPages` | the `vidmap` flags of the terminals and the user text page over whole runs of `Processes` |
| `Machine` | kernel and console joined: one scheduled terminal, one page behind 0xB8000 |
| `Rtc`, `Numbers`, `Copies` | virtual RTC rates, number printing, `memcpy` and `memmove` |
| `Common`, `Options` | constants, arithmetic and a datatype that several of these share |

Assumptions. A system call, an interrupt handler and an exception are one atomic step each. Whatever C
leaves uninitialised (the ELF header buffer, unused descriptors, grep's buffer, the screen buffers, the
parent fields of the base shells) has an arbitrary value, given as a parameter. `ebp`, `esp`, keyboard
bytes and the addresses the linker gives the page tables are parameters too. The file system image is well-formed: every inode below the inode count has
its block numbers and data blocks inside the image, which is as long as its counts say.

What the code turned out not to do in general, with the exact condition:

- `read_data` computes in 32 bits; at an offset inside the file (or at its end) it delivers what it should if and only if offset + length stays below
  2^32, and otherwise copies `length` bytes, past the end of the file (`FileSystem.ReadExactIff`). `read`
  passes a negative size on as a large unsigned one, so a negative size reaches this whenever the position
  is at least that many bytes into the file (`FileSystem.NegativeRead`).
- `getargs` compares its size as an unsigned number: a negative one passes the checks, and the fill that
  follows leaves the program page (`Commands.GetArgsStaysIff`).
- A `terminal_read` that starts when 128 characters are pending lets the next Enter store past the line
  buffer; it is safe if and only if fewer are pending (`Screens.ReadSafeIff`, `Screens.LateReadOverruns`).
- A process that has called `vidmap` loses its terminal's flag when a child of it that has called `vidmap`
  too exits; its text page then stays where another terminal's tick left it (`TextPages.NestedLosesFlag`,
  `TextPages.PageLeftBehind`). A terminal's flag is set if and only if the last of its `vidmap` calls and
  exits of processes that held video memory was a `vidmap` call (`TextPages.FlagSetIff`).
- A blinking character added at location 0 leaves its slot free; the list stays well-formed if and only if
  the location is not 0 (`Blink.AddSafeIff`, `Blink.AddAtZeroMakesCycle`).
- The blink countdown is compared as a signed word; the phase law holds for the lengths as written if and
  only if both are between 1 and 32768 (`Blink.WrittenLawIff`), and `Blink.PhaseLaw` gives the law for the
  other lengths.
- `rtc_write` does not accept 256 Hz, although it accepts every other power of two from 2 to 1024.

## Model

| member | source | states |
|---|---|---|
| Processes.StepInv | student-distrib/syscalls.c:41-105 | every step (execute, halt, exception exit, tick, vidmap) keeps the three stacks on their own base shells, free of repeated pids, with the count of live pids equal to their total height |
| Processes.RunInv | student-distrib/syscalls.c:228-391 | the same after every finite run of enabled steps |
| Processes.CountLeavesSlot | student-distrib/syscalls.c:230-233 | a free slot exists if and only if the count is below six, and the slot found is never one of a base shell |
| Processes.LiveArePids | student-distrib/syscalls.c:314-320 | the live processes are pids 1..6, as many as the three stacks hold together, at most six |
| Processes.ShellsLive | student-distrib/syscalls.c:45-57 | the three base shells are always live, each at the bottom of its own terminal's stack |
| Processes.RunSchedule | student-distrib/pit.c:163-170 | after any run the scheduled terminal is the tick count modulo three, and each terminal's stored context is that of its last switch-out in the run |
| Processes.Untouched | student-distrib/syscalls.c:66-76 | over any run, the stack, the saved context and the vidmap flag of a terminal that is never scheduled stay as they are |
| Processes.ThreeTicks | student-distrib/pit.c:163-170 | the states after the n-th, (n+1)-th and (n+2)-th tick of runs schedule the three terminals, each once |
| TextPages.FlagSetIff | student-distrib/syscalls.c:74-77 | in every run from launch a terminal's vid_map flag is set if and only if the last of its vidmap calls and exits of processes that held video memory was a vidmap call |
| TextPages.RunHeld | student-distrib/syscalls.c:616-617 | in every run a terminal's flag is set only while some process on its stack holds video memory |
| TextPages.PageIs | student-distrib/pit.c:74-88 | in every run the user text page leads where the last vidmap call, or the last tick to a terminal with its flag set, pointed it |
| TextPages.NestedLosesFlag | student-distrib/syscalls.c:74-77 | wherever a process can start a child, vidmap, execute, vidmap by the child and its halt leave the process holding video memory with its terminal's flag cleared |
| TextPages.PageLeftBehind | student-distrib/pit.c:74-88 | one round of ticks later such a process runs with its text page on the screen of the next terminal, if that one has its flag set and the third has not |
| Processes.ResumesLastSaved | student-distrib/pit.c:102-129 | after any run from launch a tick restores exactly the esp and ebp with which the next terminal was last switched out, and takes the fresh-start path if and only if it never was |
| Processes.SwitchedOutIff | student-distrib/pit.c:109-121 | terminal t has been switched out in a run if and only if more ticks have passed than lie between the first terminal and t |
| Processes.FreshStartIff | student-distrib/pit.c:109-121 | after any run from launch a tick takes the fresh-start path if and only if fewer than two ticks came before, so it does so for terminals 1 and 2 once each and never for terminal 0 |
| Processes.ResumedInside | student-distrib/pit.c:123-129 | the esp a tick restores lies in the kernel stack of the process that is then running |
| Processes.LowerStackKept | student-distrib/syscalls.c:355-368 | as long as a terminal's stack stays at height h or above, the processes below h keep their pids, arguments, programs and pending execute frames |
| Processes.CallReturns | student-distrib/syscalls.c:83-104 | whatever runs in between, when the process an execute started halts, the call returns its status to its caller, and 256 when it faults; the caller runs on with the stack below unchanged |
| Processes.ShellHalts | student-distrib/syscalls.c:45-53 | the halt of a base shell restarts it and changes nothing |
| Processes.StepStacks | student-distrib/syscalls.c:66-71 | a step never changes the stack of a terminal that is not scheduled |
| Processes.StacksDisjoint | student-distrib/syscalls.c:371-374 | the 8 KB kernel stacks of distinct processes share no address and lie in the kernel page |
| Processes.Launched | student-distrib/syscalls.c:149-206 | the state after launch satisfies the invariant, with exactly pids 1, 2 and 3 live |
| KernelState.ChainEndsAtBase | student-distrib/syscalls.c:340 | following parent_pid from sched_arr[t].process_num ends at base shell t+1, whose parent_pid is 0 |
| KernelState.ChainsDisjoint | student-distrib/syscalls.c:340-368 | no process occurs twice on the three parent chains: they are acyclic and disjoint |
| KernelState.ChainsAreSlots | student-distrib/syscalls.c:45-71 | a slot is in use if and only if its process is on one of the three chains; process_num is their total length, at most six |
| KernelState.AncestorIs | student-distrib/syscalls.c:340 | the process n parent links above a scheduled process is the one n places down its stack |
| KernelState.MaskFindsPcb | student-distrib/syscalls.c:699-710 | masking any esp in a process's kernel stack gives the address of its control block |
| KernelState.Agreement | student-distrib/pit.c:68-71 | in every represented state tss.esp0, the control block found from any esp of the current kernel stack, and the page walk of the program region all belong to the scheduled terminal's top process; its own program is mapped and the kernel page is the identity |
| KernelState.Isolation | student-distrib/syscalls.c:323 | no 32-bit address lets user code reach the frame of another live process or the kernel page |
| KernelState.StartOk | student-distrib/syscalls.c:313-374 | the table updates at the end of execute represent the machine after pushing the new process |
| KernelState.ExecuteNames | student-distrib/syscalls.c:253-309 | a command of a name, spaces and arguments stands for running the executable of that name with exactly those arguments, whatever lies behind the NUL |
| KernelState.ExecuteNameAlone | student-distrib/syscalls.c:253-309 | a name alone, or followed by spaces, runs it without arguments |
| KernelState.Addresses | student-distrib/syscalls.c:323-374 | kernel stacks, control blocks, user frames and text pages as numbers |
| KernelState.LeaveOk | student-distrib/idt_init.c:200-206 | the table updates of halt and of the exception macro represent the machine after popping the process |
| KernelState.SwitchOk | student-distrib/pit.c:66-107 | the table updates of a tick represent the machine after rotating, 0xB8000 leads to the chosen page, and so does the user text page of a terminal that uses vidmap |
| KernelState.AimOk | student-distrib/kb.c:410-447 | pointing 0xB8000 at a text page keeps the representation and makes it lead there |
| KernelState.VidmapOk | student-distrib/syscalls.c:615-620 | the updates of vidmap represent the machine with the terminal's flag set and the process holding video memory, and the user text page leads to the display |
| KernelState.LaunchedOk | student-distrib/pit.c:28-44 | the tables after launch represent three shells with terminal 0 running |
| Kernel.Kernel.constructor | student-distrib/pit.c:23-52 | the boot state: scheduler nodes with no saved context for terminals 1 and 2, page tables laid out, ticks ignored |
| Kernel.Kernel.Launch | student-distrib/syscalls.c:115-218 | returns -1 exactly when there is no executable called shell; otherwise the tables represent three shells, with the control blocks stated field by field, parent_esp and parent_ebp holding whatever the stack held |
| Kernel.Kernel.Execute | student-distrib/syscalls.c:228-391 | refines the execute step: fails exactly when six processes run or the name is no executable, and then leaves every table as it was; otherwise starts the named executable in the lowest free slot, with exactly the parsed arguments, a fresh descriptor table and no video memory; no other terminal's node changes |
| Kernel.Kernel.StartProcess | student-distrib/syscalls.c:311-374 | once a command names an executable the rest cannot fail: the late read_data error return is unreachable |
| Kernel.Kernel.TakeSlot | student-distrib/syscalls.c:314-320 | the slot scan takes the lowest free slot and marks only that one |
| Kernel.Kernel.MapAndLoad | student-distrib/syscalls.c:322-338 | the program is copied through the new mapping into the frame of the new process and no other |
| Kernel.Kernel.WritePcb | student-distrib/syscalls.c:340-374 | control block with vidmem 0, count, the scheduled terminal's node and no other, and esp0 represent the pushed process |
| Kernel.Kernel.Leave | student-distrib/syscalls.c:57-77 | takes the process off its stack; its terminal's vid_map is cleared if it held video memory and kept otherwise; no other terminal's node changes |
| Kernel.Kernel.Halt | student-distrib/syscalls.c:41-105 | refines the halt step: a base shell restarts with no table changed; any other process gives way to its parent, whose pending execute returns the zero-extended status, with its files closed and no other terminal's node changed |
| Kernel.Kernel.Fault | student-distrib/idt_init.c:196-226 | refines exception exit of a process with a parent: the parent's pending execute returns 256, the files are closed, no other terminal's node changes |
| Kernel.Kernel.Tick | student-distrib/pit.c:140-177 | ignored before launch; afterwards refines the tick step; of the nodes only the switched-out one changes, in esp and ebp; 0xB8000 leads to the display if the next terminal is visible and to its own buffer otherwise, and so does the user text page if that terminal's vid_map is set, while it stays where it was if not; a restored esp lies in the running process's kernel stack |
| Kernel.Kernel.SwitchProcess | student-distrib/pit.c:66-130 | saves the context into the previous node and writes no other field of any node, remaps frame and text pages to the next terminal, and resumes or starts it |
| Kernel.Kernel.Vidmap | student-distrib/syscalls.c:608-636 | fails without effect outside the program region; otherwise maps the user text page to the display, sets vidmem in the caller's control block and vid_map in the scheduled terminal's node, and changes no other node |
| Kernel.Kernel.GetArgs | student-distrib/syscalls.c:583-598 | in every valid state a call that passes the checks returns exactly the arguments the running process was executed with, zero-padded, and any other, negative sizes included, returns -1 without effect |
| Kernel.Kernel.GetPcb | student-distrib/syscalls.c:699-710 | get_pcb_add finds the running process's own control block from any esp of its stack |
| Kernel.Kernel.CloseAll | student-distrib/syscalls.c:58-60 | closes every open descriptor of the dying process from 2 on and touches nothing else |
| Kernel.Kernel.KeyInterrupt | student-distrib/kb.c:410-447 | on return from a keyboard interrupt 0xB8000 leads to the scheduled terminal's screen again, whichever terminal is now visible, and nothing else has changed |
| Kernel.Kernel.RunCalls | student-distrib/pit.c:140-177 | any sequence of calls, exceptions, ticks and key interrupts keeps the tables representing the machine, which runs the corresponding steps, keeps the page walk of 0xB8000 on the scheduled terminal's screen, and never writes the node of a terminal that is not scheduled meanwhile |
| Machine.Machine.MappedIsWalk | student-distrib/pit.c:74-88 | the page the console model works on is the one the page walk of 0xB8000 finds |
| Machine.Machine.TimerInterrupt | student-distrib/pit.c:140-177 | a tick moves kernel and console to the same terminal and the same page |
| Machine.Machine.KeyInterrupt | student-distrib/kb.c:390-453 | a key, terminal switches included, leaves kernel and console agreeing on the page |
| Machine.Machine.Perform | student-distrib/kb.c:410-447 | in any interleaving of calls, exceptions, keys, ticks, output and reads both run their abstract machines and go on agreeing |
| Loader.Load | student-distrib/syscalls.c:261-283 | finds the inode of the first directory entry with the name, if its header (stale bytes included when the file is short) is ELF |
| Loader.LoadableIs | student-distrib/syscalls.c:263-283 | a name is an executable if and only if its first entry's inode number is in range and that file begins with 0x7F ELF |
| Loader.ProgramIs | student-distrib/syscalls.c:335 | a program is its file, up to the end of the page it is loaded into |
| Loader.ReadProgram | student-distrib/syscalls.c:334-338 | reads the flat file up to the program size; fails if and only if the inode number is bad |
| Paging.PageTables.constructor | student-distrib/paging.c:125-134 | after init_paging the layout holds and the display and the three buffers are mapped to themselves |
| Paging.PageTables.InitDirectory | student-distrib/paging.c:144-164 | the contents of all 1024 directory entries |
| Paging.PageTables.InitTables | student-distrib/paging.c:174-191 | the contents of all entries of both page tables |
| Paging.PageTables.SetDirEntry | student-distrib/paging.c:35-41 | exactly one directory entry changes, to the frame with its flags |
| Paging.PageTables.SetTable1Entry | student-distrib/paging.c:52-58 | exactly one entry of the kernel table changes |
| Paging.PageTables.SetTable2Entry | student-distrib/paging.c:69-75 | exactly one entry of the user table changes |
| Paging.WalkFindsProcess | student-distrib/paging.c:35-41 | under the layout the walk maps the kernel page to itself for the kernel only, and the program region to the frame of the mapped process |
| Paging.UserReach | student-distrib/paging.c:144-191 | whatever 32-bit address user code uses, it faults, reaches its own frame, or reaches a text page through the vidmap page |
| Paging.VideoWalk | student-distrib/pit.c:74-88 | the two text entries decide where 0xB8000 and the user text page lead |
| Paging.RemappedOk | student-distrib/pit.c:70-88 | after the mappings of a switch the program region, 0xB8000 and, if used, the user text page belong to the next terminal |
| Paging.SameLow | student-distrib/paging.c:35-41 | where 0xB8000 leads does not depend on the mapped process |
| Paging.FramesDisjoint | student-distrib/syscalls.c:323 | frames of distinct processes share no address and lie above the kernel page |
| Paging.InitialTables | student-distrib/paging.c:144-191 | the initialised tables have the layout with no program mapped and map the four text pages to themselves |
| Bits.OrAligned | student-distrib/paging.c:35-75 | or-ing flag bits onto an aligned address leaves the address part alone |
| Bits.AndStackMask | student-distrib/syscalls.c:699-710 | the stack mask keeps bits 13 to 22 of an address |
| Displays.TypeThenErase | student-distrib/kb.c:257-268 | from any cursor position with blank cells ahead, typing k characters and erasing them with k backspaces restores the line buffer; the characters on the screen, and the whole cells if those ahead had the usual attribute, are the original ones scrolled s times, and the cursor is at its original linear position minus 80 s, with s given in closed form |
| Displays.TypeOne | student-distrib/lib.c:338-353 | one echoed key changes one cell and one byte of the line buffer, with a scroll exactly when the last cell is filled |
| Displays.EraseOne | student-distrib/lib.c:169-179 | one backspace moves the cursor back one cell, also across a line start, and blanks that cell only |
| Displays.ErasedChar | student-distrib/lib.c:120-130 | character by character, erasing a typed one after scrolling leaves what scrolling alone would leave |
| Displays.ErasedCell | student-distrib/lib.c:120-130 | the same with attributes, for a cell that was blank in the usual attribute |
| Displays.KeyDown | student-distrib/kb.c:290-357 | every key keeps the cursor on the screen, the line buffer within 128 bytes, and the cursor at least as far as the pending line is long |
| Displays.KeyRows | student-distrib/kb.c:39-113 | the four rows of the keyboard, plain and shifted |
| Displays.KeyCharacter | student-distrib/kb.c:233-280 | a letter key gives a capital if and only if one of shift and caps lock is on; for other keys shift alone decides |
| Displays.Modifiers | student-distrib/kb.c:290-379 | shift, control and alt are on from press to release, caps lock toggles, and each changes its own flag only |
| Displays.OtherReleases | student-distrib/kb.c:367-379 | no other release does anything |
| Displays.EnterEnds | student-distrib/kb.c:330-333 | Enter echoes and stores the break and sets the flag, or changes nothing on a finished line |
| Displays.Put | student-distrib/lib.c:338-353 | putc keeps the cursor on the screen, and moves it forward or leaves it at the start of the last row |
| Displays.PutBreak | student-distrib/lib.c:137-149 | both line breaks start the next row, or move the screen up by one row in the last one |
| Displays.PutOther | student-distrib/lib.c:338-353 | every other byte goes under the cursor, with a new row behind the last column and a scroll behind the last cell |
| Displays.PutAllPlain | student-distrib/lib.c:338-353 | text without line breaks that fits on the screen goes to consecutive cells, across row ends, and nothing else changes |
| Displays.PutAllOk | student-distrib/kb.c:149-152 | output of any length keeps the cursor at least as far as the pending line is long |
| Displays.RedrawShows | student-distrib/kb.c:312-319 | after Ctrl-L with a pending line that holds no line break the screen shows exactly that line, with the cursor behind it |
| Displays.RedrawFinished | student-distrib/kb.c:312-319 | the same for a line already finished by its line break: the screen shows the line, with the cursor at the start of the next row |
| Screens.Independent | student-distrib/lib.c:80-101 | in every interleaving of ticks, keys, switches, output and reads each terminal's screen and cursor go through exactly the steps addressed to that terminal |
| Screens.WriteReaches | student-distrib/kb.c:149-152 | output goes to the scheduled terminal's screen, visible or not, and to no other |
| Screens.KeyReaches | student-distrib/kb.c:409-431 | a key that switches no terminal edits the visible terminal and no other |
| Screens.KeyDropped | student-distrib/kb.c:402-408 | the codes that are dropped, as numbers, change nothing |
| Screens.SwitchShows | student-distrib/kb.c:294-309 | with Alt down F1, F2 and F3 show terminals 0, 1 and 2 and change no screen |
| Screens.TickShows | student-distrib/pit.c:163-170 | a tick schedules the next terminal and changes no screen |
| Screens.ReadReaches | student-distrib/kb.c:183-207 | a read's beginning clears the scheduled terminal's flag, its end and an open or close drop the visible terminal's pending line |
| Screens.Run | student-distrib/kb.c:183-207 | every run in which reads start with at most 127 pending characters keeps all three displays within their bounds |
| Screens.StoredThere | student-distrib/kb.c:257-268 | print_scancode stores its character at the stated place and moves the index behind it, or does nothing when there is none |
| Screens.ReadSafeIff | student-distrib/kb.c:183-203 | after a read starts no key is stored outside the line buffer if and only if fewer than 128 characters were pending |
| Screens.LateReadOverruns | student-distrib/kb.c:257-268 | a full line finished before its read lets the next Enter be stored one past the buffer |
| Console.ShowAddresses | student-distrib/lib.c:338-353 | output through the mapping changes the logical screen and cursor of the printing terminal only |
| Console.SwitchedKeeps | student-distrib/lib.c:80-101 | saving and restoring pages in change_shell changes no logical screen |
| Console.Console.KeyboardInterrupt | student-distrib/kb.c:390-453 | refines the key step, and on return mapping and print_terminal match the scheduled terminal again |
| Console.Console.HandleKey | student-distrib/kb.c:290-379 | with output aimed at the visible terminal, a key edits that terminal's line or switches terminals |
| Console.Console.ChangeShell | student-distrib/lib.c:80-101 | saves the video page to the old terminal's buffer and shows the new terminal's buffer |
| Console.Console.Putc | student-distrib/lib.c:338-353 | refines putc on the display behind the mapping |
| Console.Console.ScrollUp | student-distrib/lib.c:120-130 | moves every row up and blanks the last one, in place |
| Console.Console.DoBackSpace | student-distrib/lib.c:169-179 | refines backspace in place |
| Console.Console.DoPrintScancode | student-distrib/kb.c:257-268 | refines the echo of a key and its entry into the line buffer |
| Console.Console.DoKeyDown | student-distrib/kb.c:290-357 | all key branches, with shift and caps lock, refine the key step of one display |
| Console.Console.DoRedraw | student-distrib/kb.c:312-319 | refines Ctrl-L in place |
| Console.Console.Tick | student-distrib/pit.c:163-170 | keeps all displays and aims output at the next terminal |
| Console.Console.TerminalWrite | student-distrib/kb.c:137-159 | the scheduled terminal's logical screen gets the output, visible or not; the other logical screens are unchanged |
| Console.Console.ReadBegin | student-distrib/kb.c:183-191 | clears the line flag of the scheduled terminal only |
| Console.Console.Forget | student-distrib/kb.c:203-206 | drops the pending line of the visible terminal only |
| Console.Console.RunEvents | student-distrib/kb.c:390-453 | any sequence of events on the physical pages runs the three abstract displays, with the mapping right after each |
| FileSystem.ReadData | student-distrib/file_system.c:119-184 | terminates and delivers exactly the slice of the flat file, min(length, size - offset) bytes, 0 past the end, -1 for a bad inode, and writes nothing else; the count is that of the 32-bit loop |
| FileSystem.CopyBlocks | student-distrib/file_system.c:150-180 | the block loop holds the file from offset to its current point, for every alignment of offset and end |
| FileSystem.FetchBlock | student-distrib/file_system.c:174-179 | the number fetched after each block is in bounds even one past the last, and right whenever it is used |
| FileSystem.NumberInBounds | student-distrib/file_system.c:174-176 | the slot after the last block number is still inside the image |
| FileSystem.FilePiece | student-distrib/file_system.c:163-166 | a piece within one data block is that piece of the flat file |
| DiskImage.FileIsBlocks | student-distrib/file_system.c:126-180 | in every image made of a head and 4096-byte blocks a file is the blocks its inode numbers, end to end, cut to its size |
| DiskImage.WrittenIsWellFormed | student-distrib/file_system.h:9-30 | every image written from entries, inodes and blocks is one the reader accepts |
| DiskImage.ReadsEntry | student-distrib/file_system.h:9-30 | a written entry's name, type and inode are read back |
| DiskImage.ReadsInode | student-distrib/file_system.c:126-152 | a written inode's size and block numbers are read back |
| DiskImage.ReadsFile | student-distrib/file_system.c:119-184 | round trip: the file read from a written image is the blocks of its inode in the order of the numbers, cut to the size |
| DiskImage.ReadsName | student-distrib/file_system.c:35-78 | in a written image a name leads to the first entry written with it, or to none |
| DiskImage.EncodedDecodes | student-distrib/file_system.c:133 | a 32-bit word stored least significant byte first is read back |
| FileSystem.EndPointExact | student-distrib/file_system.c:142 | the 32-bit end point is the intended one if and only if offset + length is below 2^32; otherwise it lies before the offset |
| FileSystem.ReadExactIff | student-distrib/file_system.c:142-183 | the loop, in 32-bit arithmetic, copies min(length, size - offset) bytes if and only if offset + length is below 2^32, and otherwise length bytes, more than the file has left |
| FileSystem.NegativeRead | student-distrib/file_system.c:222-244 | a read of -k bytes copies the rest of the file if the position is below k, and runs on for 2^32 - k bytes otherwise |
| FileSystem.ReadDentryByName | student-distrib/file_system.c:35-78 | finds the first entry whose NUL-trimmed 32-byte name equals the name, or none |
| Descriptors.Process.Open | student-distrib/syscalls.c:473-541 | fills the lowest free descriptor from 2 on according to the entry's type, or fails; no other descriptor or history changes |
| Descriptors.OpensByType | student-distrib/syscalls.c:511-529 | the type word of the entry decides: 0 opens the RTC, 1 the directory listing, 2 the file of the entry's inode; no other type opens |
| Descriptors.NotOpenedIff | student-distrib/syscalls.c:473-541 | when open fails and when it gives a terminal descriptor |
| Descriptors.Process.Allocate | student-distrib/syscalls.c:502-540 | the descriptor scan takes the lowest free one; an unknown file type changes nothing |
| Descriptors.Process.Close | student-distrib/syscalls.c:551-572 | succeeds if and only if the descriptor is an open one from 2 to 7, and frees only that one |
| Descriptors.Process.Read | student-distrib/syscalls.c:403-427 | delivers the next bytes of the descriptor's source, so that all it has returned since its open is the source up to its position; other descriptors and the rest of the buffer keep their contents |
| Descriptors.Process.FileRead | student-distrib/file_system.c:222-244 | the next bytes of the file and the advanced position |
| Descriptors.Process.DirRead | student-distrib/file_system.c:295-325 | the next entry name padded to 32 bytes, each once and in order, then 0 |
| Descriptors.ListingEntry | student-distrib/file_system.c:295-325 | the i-th 32 bytes of the listing are the padded i-th name |
| Descriptors.PrefixTest | student-distrib/syscalls.c:481-492 | the bounded comparison with a fixed name holds if and only if the name is a prefix of it |
| Strings.Strncmp | student-distrib/lib.c:589-603 | returns 0 if and only if both buffers hold the same string up to n bytes, and otherwise the signed difference of the first bytes that differ |
| Strings.Strncpy | student-distrib/lib.c:626-637 | the string cut or zero-filled to n bytes, nothing after it touched |
| Strings.Strlen | student-distrib/lib.c:416-421 | the position of the first NUL, never reading past it |
| Strings.CStrPadded | student-distrib/file_system.c:35-50 | a NUL-free string survives padding and trimming |
| Commands.CommandRoundTrip | student-distrib/syscalls.c:254-309 | name, one or more spaces and arguments are parsed back to exactly that name and those arguments |
| Commands.CommandLossless | student-distrib/syscalls.c:289-309 | for every command line nothing is lost but the spaces after the name and arguments beyond 127 bytes |
| Commands.SplitName | student-distrib/syscalls.c:253-259 | the copied file name is the longest space-free prefix of at most 32 bytes |
| Commands.SplitArgs | student-distrib/syscalls.c:285-309 | the bytes stored in the control block are the padded arguments |
| Commands.GetArgs | student-distrib/syscalls.c:583-598 | succeeds if and only if there are arguments, the address is the program's, and the size, read as unsigned, holds them with their NUL |
| Commands.GetArgsStaysIff | student-distrib/syscalls.c:588-594 | a size passes if and only if it is negative or large enough, and then the bytes filled lie within the program page if and only if it is not negative and fits behind the address |
| Commands.GetArgsRefuses | student-distrib/syscalls.c:588-591 | without arguments, or outside the program region, every call fails |
| Lines.SplitJoins | syscalls/ece391grep.c:20-60 | splitting into lines loses and invents nothing, except a final newline |
| Lines.SplitLines | syscalls/ece391grep.c:20-60 | no line contains a newline |
| Lines.GrepStep | syscalls/ece391grep.c:40-52 | the result for a file is the report of its first line, if it matches, followed by the result for the rest |
| Lines.ReportIs | syscalls/ece391grep.c:45-48 | a report is name, colon, line, line break |
| GrepProgram.DoOneFile | syscalls/ece391grep.c:9-66 | for a NUL-free file with lines of at most 1023 bytes, a non-empty pattern and a buffer with no newline in its last byte, prints exactly the lines that contain the pattern, once each and in order, and closes the file |
| GrepProgram.SearchFile | syscalls/ece391grep.c:20-60 | the read loop with carry-over terminates with the result for the whole file |
| GrepProgram.ScanBuffer | syscalls/ece391grep.c:28-57 | one buffer: the finished lines are searched and the rest is carried over, with no byte of the file lost |
| GrepProgram.SearchLine | syscalls/ece391grep.c:42-51 | finds the pattern if and only if it occurs in the line |
| GrepProgram.WholeLine | syscalls/ece391grep.c:29-40 | whatever the loop searches is a whole line of the file |
| GrepProgram.CompareAt | syscalls/ece391support.c:35-47 | ece391_strncmp returns 0 if and only if both hold the same string up to n bytes |
| GrepProgram.MoveDown | syscalls/ece391support.c:14-17 | copying a string down within its own buffer moves it intact |
| GrepProgram.Cat | syscalls/ece391cat.c:6-31 | writes exactly the directory listing for an entry of type 1 and the file of the entry's inode for type 2, and terminates |
| GrepProgram.CopyOut | syscalls/ece391cat.c:21-28 | the read-write loop terminates having written the whole source |
| Blink.PhaseLaw | fish/blink.S:58-90 | after n tasklet runs a new entry is on if and only if n modulo the period is below the on-length, for all 16-bit lengths, where a length outside 1..32768 counts as 1 |
| Blink.WrittenLawIff | fish/blink.S:64-66 | with the lengths as written the law holds for all n if and only if both are between 1 and 32768 |
| Blink.TickAges | fish/blink.S:60-86 | one run ages an entry by one, and the character changes only with the status |
| Blink.FullIff | fish/fish.c:160-170 | there is no free slot if and only if the chain has 2000 entries |
| Blink.Inserted | fish/blink.S:105-162 | an entry with a non-zero location put in a free slot gives a chain with it in front |
| Blink.Removed | fish/blink.S:187-223 | unlinking the i-th entry and clearing its slot gives the chain without it |
| Blink.AddSafeIff | fish/blink.S:121-162 | an add leaves some well-formed chain if and only if its location is not 0 |
| Blink.AddAtZeroMakesCycle | fish/blink.S:121-162 | after an add at location 0 the next add links its entry to itself |
| Blink.BlinkList.Malloc | fish/fish.c:160-170 | returns the first free slot, or NULL if and only if none is free |
| Blink.BlinkList.Add | fish/blink.S:105-183 | a valid add puts the new entry first, and fails only when all 2000 slots are used |
| Blink.BlinkList.FindHelper | fish/blink.S:351-379 | finds the newest entry at a location, or NULL |
| Blink.BlinkList.Remove | fish/blink.S:187-236 | takes out the newest entry at the location and nothing else, or fails without effect |
| Blink.BlinkList.FindPrev | fish/blink.S:203-213 | the pointer chase ends at the predecessor |
| Blink.BlinkList.Tasklet | fish/blink.S:49-97 | every entry gets one run older, and the screen afterwards is exactly the one before with the character of every entry that toggles written at its location, in list order |
| Blink.BlinkList.RunEntry | fish/blink.S:60-90 | the entry's new character is written to its location if and only if its state changes |
| Blink.BlinkList.PerformCalls | fish/blink.S:49-236 | any sequence of adds, removes and tasklet runs takes list and screen through the corresponding abstract steps |
| Blink.ScreenLaw | fish/blink.S:64-86 | in any sequence of adds, removes and runs, none of them an add or remove at its location, an entry alone there goes on showing the character of its state, as many runs older as there were runs |
| Blink.AddedScreenLaw | fish/blink.S:136-169 | from the add on, whatever is added or removed elsewhere, an entry added at a free location shows its on-character if and only if the number of runs since modulo the period is below the on-length, its off-character otherwise |
| Blink.PaintedBy | fish/blink.S:64-86 | where several entries share a location, the last of them to toggle in a run is the one shown |
| Blink.PaintedNot | fish/blink.S:64-86 | attributes, and locations at which nothing toggles, keep their contents |
| Rtc.Conserved | student-distrib/rtc.c:76-82 | over any run, interrupts are either delivered, one period each, or still counted |
| Rtc.DeliveredTicks | student-distrib/rtc.c:76-82 | N interrupts deliver exactly floor((c + N) / rate) virtual ticks, whatever the other terminals do |
| Rtc.FrequencyKept | student-distrib/rtc.c:195-230 | for every accepted frequency f, once the count is below the rate, 1024 consecutive interrupts deliver exactly f ticks |
| Rtc.WriteDelivers | student-distrib/rtc.c:195-230 | from a write of an accepted frequency on, once the count is below the new rate, 1024 interrupts deliver exactly that many ticks |
| Rtc.OpenDelivers | student-distrib/rtc.c:111-125 | from an open on they deliver two |
| Rtc.WriteElsewhere | student-distrib/rtc.c:195-230 | a refused write, and another terminal's write or open, change nothing |
| Rtc.Clock.HandleInterrupt | student-distrib/rtc.c:63-101 | each terminal's counter makes its own step, and exactly the terminals that got a tick have their flag raised |
| Rtc.Clock.WriteRtc | student-distrib/rtc.c:175-237 | accepts exactly nine frequencies, and no NULL buffer, and changes only the scheduled terminal's rate |
| Rtc.Clock.OpenRtc | student-distrib/rtc.c:111-125 | sets the scheduled terminal's rate to 2 Hz and no other |
| Numbers.PrintedPrints | student-distrib/lib.c:361-391 | the digits decode to the value, are digits of the radix, and have no leading zero except for 0 itself |
| Numbers.PrintedDigits | student-distrib/lib.c:361-391 | the last digit is the character of the remainder, those before it are the digits of the quotient |
| Numbers.PrintedLength | student-distrib/lib.c:361-391 | a 32-bit value has at most 32 digits in every radix from 2 on |
| Numbers.Itoa | student-distrib/lib.c:361-391 | digit generation and in-place reversal produce the printed number with its NUL and touch nothing else |
| Numbers.Strrev | student-distrib/lib.c:397-410 | reverses the string in place |
| Numbers.AltHex | student-distrib/lib.c:246-264 | prints exactly 8 hexadecimal digits that decode to the value |
| Copies.Memcpy | student-distrib/lib.c:512-549 | byte head, dword body and byte tail equal a byte-by-byte copy for every alignment and length |
| Copies.Memmove | student-distrib/lib.c:558-576 | the choice of direction delivers the original source bytes for every overlap |
| Copies.NextDword | student-distrib/lib.c:525-532 | a dword moved in the body is four bytes not yet overwritten |

## Left out

- Interleavings inside a system call: steps are atomic, although the `process_num` test of `execute` comes before its `cli` and `halt` runs with interrupts on.
- Register-level switching: `context_switch`, `iret` frames and TLB flushes appear only as the saved esp and ebp and as mappings that take effect at once.
- Kernel.Kernel.Execute: the reset of `process_array` for `process_num == 0` is not modelled; after launch the count is never below three. The entry address read from the header and `write` of a program's own memory are not modelled either.
- Kernel.Kernel.Fault: exception exit of a base shell is excluded, since the macro has no branch for it and its `parent_pid` is 0; the message it prints is not modelled.
- Kernel.Kernel.Vidmap: the store of the page's address through `screen_start` is not modelled, since frames hold programs as loaded; of the page only the mapping is modelled; what a program then writes through the user text page is not, and until the next tick that page is the display even for a terminal that is not visible.
- Kernel.Kernel.CloseAll: the two `close` calls on descriptors 0 and 1, which only return -1, are folded into the loop.
- Descriptors.Process.Open: names of more than 32 bytes and a NULL name are excluded; the calls of `rtc_open` and of `terminal_open` that `open` makes are modelled in Rtc and Console, not here.
- Commands.GetArgs: a call with a negative size that would pass the checks is excluded, since its fill leaves the program page; `Kernel.Kernel.GetArgs` excludes the same calls.
- FileSystem.ReadData: sums of offset and length at or above 2^32 are excluded, since the copy then leaves file and buffer; how many bytes it goes on for is stated by `FileSystem.ReadExactIff`.
- Descriptors.Process.Read: reads through RTC and terminal descriptors and negative sizes are excluded.
- Console.Console.ReadBegin: which bytes a `terminal_read` delivers is not modelled, only its effect on flag and pending line; the hardware cursor and `current_line` are not modelled.
- Console.Console.Forget: the wait between `ReadBegin` and the end of a read is the precondition that the flag is set.
- GrepProgram.Cat: names that open a terminal or the RTC are excluded, as for `read`.
- Blink.BlinkList.Add: location 0 is excluded, since the list is not well-formed afterwards.
- GrepProgram.DoOneFile: names of directories and of the RTC are excluded, and lines and bytes as in its row; the argument parsing and directory loop of grep's `main` are not modelled; that loop calls `do_one_file` once a name.
- Blink.BlinkList.FindHelper: the wrapper that copies the found struct to the caller is not modelled, nor is `mp1_ioctl_sync` with its redisplay.
- Rtc.Clock.HandleInterrupt: `rtc_read`, which waits for the flag and clears it, is not modelled.
- Numbers.AltHex: the walk of `printf` through its arguments is not modelled, only the conversion.
- Port I/O, PIC, PIT and RTC programming, GDT, LDT and TSS descriptors, multiboot, and the programs without state of their own.
