# A verified model of the kernel and two of its programs

The repository is a small x86 kernel (processes, three terminals, paging, the real-time
clock, a read-only file system) with user programs.  This project models its stateful
core in Dafny and proves what that core is for.  Code that changes things in place is
modelled by classes and loops; each such method is proved to compute a function of the
old state, and what the source promises is proved about that function, over every input
and over every run.

| file | what it models |
|---|---|
| `Bytes.dfy` | bytes, C strings, 32-bit arithmetic, storing into memory |
| `Memory.dfy` | `memset`, `memcpy`, `memmove` |
| `Digits.dfy` | `itoa`, `strrev`, the number cases of `printf` |
| `FileSystem.dfy` | the image, block walks, lookups, directory reads |
| `Image.dfy` | images put together from entries, inodes and blocks, and read back |
| `Rtc.dfy` | the clock: one hardware rate, a rate for each process, a reference count |
| `SysCalls.dfy` | descriptor tables under open, close, read, write, execute and halt |
| `Scheduler.dfy`, `Kernel.dfy` | processes, terminals and the timer; the stacks behind the tables |
| `Fairness.dfy` | how long a terminal can wait for its turn |
| `Screen.dfy`, `Terminal.dfy` | the 80x25 screen, the line buffer, reads and echo |
| `Paging.dfy` | page directories and tables and the translation made of them |
| `Grep.dfy` | the search program, down to the blocks of the disk image |
| `Blink.dfy` | the fish program's linked list and its slot pool |

The main results, in the system's terms:

* **Processes.** From boot, over every run of execute, halt, fault, timer tick and
  terminal switch, the kernel's tables stand for a stack of processes on each terminal:
  following parents from a terminal's active process visits exactly the live processes of
  that terminal and ends.  One step breaks this, and it is pinned down exactly: a
  terminal's only process ends while another terminal, with a process, is displayed
  (`execute` then takes the dead process as parent); a run from boot reaches it.  The
  terminal count and the process count are arbitrary.
* **Fairness.** With n terminals, one with a process waits through at most
  (n - 1)(n - 2) / 2 turns of others, however other terminals start and stop.  From one
  of its turns to the next there are at most n, in every run, exactly when n is at most 3,
  as in the kernel; for every larger n a run from boot with 2n - 3 is given.
* **Files and descriptors.** An image put together from entries, file lengths, block
  numbers and blocks reads back as exactly those, so every byte of a file is a byte of its
  data blocks.  Over every interleaving of calls by all processes, a
  descriptor's position is what it has delivered, its reads follow the file, and the
  clock's reference count, rates and interrupts agree with the live descriptors.
* **Search.** The search program, reading 1024 bytes at a time through the modelled
  system calls and blocks, prints exactly the lines that contain the pattern, once each
  and in order, if and only if none of those lines is longer than 1024 bytes and, when
  the byte after the buffer happens to be a newline, the line cut by it is not one of
  them.  What it prints otherwise is stated as well.  Cut at its newlines, the output is one
  entry for each line found: the file's name, a colon and the line.
* **Screen and line.** The screen is a window on an unbounded sheet, which is the typed
  text cut into rows.  Reads deliver the text as typed and edited, in order, whether its
  keys came before or after the read began; only an Enter without a reader loses any.
* **Paging.** For every 32-bit address: what a program can reach, that two processes
  reach disjoint memory but for a screen both mapped, and which screen an echo reaches.
* **Blinking cells.** The list is acyclic and its nodes are the used slots; each location
  is a stack; every cell shows its state, and k ticks after it was added a cell with lengths
  m and n shows its on character exactly when k modulo m + n is less than m.

Where the code differs from its comments or from what one expects, the model follows the
code and the difference is proved:

* the first open of the clock resets the shared rate but not the counters, so the opener
  counts right exactly when its old counter was 1: never at boot, and after a run exactly
  when it had the shared rate as its counter was last set (`Rtc.FreshOpenIsOut`,
  `Rtc.FirstOpenAfterRun`);
* a close that lowers the shared rate leaves the hardware rate, so from then until the
  hardware is next set reads are short (`Rtc.TrimKeepsHardware`, `Rtc.RunsTrim`,
  `Rtc.TrimmedReadIsShort`);
* the power-of-two test accepts the least 32-bit integer (`Rtc.AcceptedRates`), and such
  a process is never in step (`Rtc.WriteSyncs`);
* a successful write to the clock returns 1, though its comment says 0;
* directory reads report the name's length but store a newline and a NUL after it, and
  the position of a directory wraps after 2^32 reads, which then start again
  (`FileSystem.ReadDirectoryEntry`, `SysCalls.DirectoryWraps`);
* a line of more than 1024 bytes is searched in pieces, and a newline in the byte the
  search never sets can cut a line (`Grep.OutputIsRight`);
* the child that a timer tick has started ends into the timer handler, which then
  chooses a terminal, and not into its parent (`Scheduler.HaltRefines`);
* a blinking cell at location 0 leaves its slot free in the pool's eyes, and the next one
  ties the list into a loop (`Blink.AddLinksIff`, `Blink.SecondAddCycles`);
* a phase length of 0 or of more than 32768 lasts a single tick (`Blink.PhaseLasts`).

## Model

| member | source | states |
|---|---|---|
| Scheduler.RunsRefine | student-distrib/sys_calls.c:41-191 | over every run without the harmful step, the tables (bitmap, count, active pids, parents, terminals) stand for one stack of pids for each terminal, changed as the events say |
| Scheduler.RunsKeepChains | student-distrib/process.c:48-140 | from boot, after any such run, the parent chain of each terminal is its stack, ends without a parent and holds exactly the live pids with that terminal number; every live pid has a terminal's number; the count is the number of set bits; the running pid is the active one of its terminal |
| Scheduler.ChainsPartition | student-distrib/sys_calls.c:170-188 | every live pid is on the chain of its own terminal, which exists, and on no other; the running pid is the active one of its terminal |
| Scheduler.HaltKeepsIff | student-distrib/sys_calls.c:59-71 | ending a process leaves tables that stand for some stacks exactly when it is not the only one of its terminal or no other used terminal is displayed |
| Scheduler.HaltDiverges | student-distrib/sys_calls.c:170-176 | in the excluded case no stacks at all fit the tables: the new shell has a dead process, or itself, as parent |
| Scheduler.DivergenceIsReached | student-distrib/sys_calls.c:59-71 | that case is reached from boot: two terminals started, the first displayed, the shell of the second ends |
| Scheduler.ExecuteRefines | student-distrib/sys_calls.c:122-188 | a started program gets the lowest free pid and goes on top of the running process, or starts the displayed terminal |
| Scheduler.HaltRefines | student-distrib/sys_calls.c:41-71 | a process that ends uncovers its parent, or a new shell takes its place; a child that a tick had started passes the turn on, because its execute returns into the timer handler |
| Scheduler.TickRefines | student-distrib/devices/pit.c:64-127 | a tick starts the pending shell when there is room and otherwise passes the turn on; the pending request is used up either way, and the displayed terminal stays |
| Scheduler.SwitchRefines | student-distrib/devices/keyboard.c:465-496 | a switch shows the terminal, unless it has no process and all pids are in use; one without a process gets a shell, now or, exactly when the terminal shown before has a process, at the next tick |
| Scheduler.CountMatches | student-distrib/process.c:97-112 | the counter is zero exactly when no terminal has a process, and full exactly when there is no free pid |
| Scheduler.ChosenMatches | student-distrib/devices/pit.c:99-104 | the choice loop always finds an active pid: that of the next used terminal in cyclic order |
| Fairness.TurnsComeNearer | student-distrib/devices/pit.c:99-107 | taking turns runs a given used terminal or strictly lowers its cyclic distance |
| Fairness.TurnsAreFair | student-distrib/devices/pit.c:64-127 | in any run, a used terminal waits through at most (n - 1)(n - 2) / 2 turns, whatever others start, stop or are started elsewhere |
| Fairness.WaitBounded | student-distrib/devices/pit.c:64-127 | from one of its turns to the next there are at most two more than that, and at most n for up to three terminals |
| Fairness.WaitsAreShortIff | student-distrib/devices/pit.c:64-127 | every wait of every run from boot is at most n turns exactly when n is at most 3 |
| Fairness.LongWait | student-distrib/devices/pit.c:89-107 | for every n from 4 on, a run from boot in which terminal 0 waits through 2n - 3 turns |
| Fairness.StepTurn | student-distrib/sys_calls.c:170-176 | whose turn it is changes only by a choice among the used terminals or by starting a displayed, unused one; no third terminal's use changes |
| Kernel.Kernel.AddProcess | student-distrib/process.c:48-58 | takes the lowest clear bit and counts it, or fails and changes nothing |
| Kernel.Kernel.DeleteProcess | student-distrib/process.c:66-74 | clears the bit of a pid in range and counts it off, else fails |
| Kernel.Kernel.GetActiveProcess | student-distrib/process.c:122-126 | the active pid, -1 for a terminal that does not exist |
| Kernel.Kernel.SetActiveProcess | student-distrib/process.c:135-140 | replaces one entry, nothing for a terminal that does not exist |
| Kernel.Kernel.Execute | student-distrib/sys_calls.c:122-188 | the tables after execute, unchanged when nothing can be loaded or no pid is free |
| Kernel.Kernel.Halt | student-distrib/sys_calls.c:41-71 | the tables after halt, down to the new shell of an emptied terminal and to the choice the timer handler makes when it was waiting for the process |
| Kernel.Kernel.PitHandler | student-distrib/devices/pit.c:64-127 | the tables after a tick, pending execute included |
| Kernel.Kernel.Schedule | student-distrib/devices/pit.c:95-126 | the loop's choice is the first active terminal after the running one |
| Kernel.Kernel.StartTerminal | student-distrib/devices/keyboard.c:465-496 | the tables after a switch, and when it is refused |
| Kernel.Kernel.Handle | student-distrib/isr.c:184-215 | every event, faults too, changes the tables as the stacks change |
| SysCalls.RunsKeep | student-distrib/sys_calls.c:247-386 | over every interleaving of open, close, read, write, tick, create and destroy: 0 and 1 are live terminals, free entries are at position 0, positions are what was delivered since the open, the clock agrees with the live descriptors |
| SysCalls.RunsDeliver | student-distrib/fs.c:250-284 | after any such run the next read of a file extends the prefix delivered so far and is short only at the file's end; a directory goes on to the next name, and returns nothing past the last, exactly until its position wraps |
| SysCalls.ReadsFollowFile | student-distrib/fs.c:272-284 | what a descriptor has returned is a prefix of the file, and reads join up |
| SysCalls.ReadsListDirectory | student-distrib/fs.c:250-262 | the read after k others returns entry k's name, cut to the request, exactly when fewer than 2^32 were made or it returns nothing |
| SysCalls.DirectoryWraps | student-distrib/fs.c:258-259 | after 2^32 reads the first name comes again |
| SysCalls.DestroyedKeeps | student-distrib/sys_calls.c:53-58 | ending a process gives back each of its descriptors and keeps the invariant |
| SysCalls.CreatedKeeps | student-distrib/sys_calls.c:142-166 | a new process starts with terminals on 0 and 1 and the others free |
| SysCalls.Tables.FindFree | student-distrib/sys_calls.c:318-325 | the lowest free descriptor from 2 up, or -1 when all are live |
| SysCalls.Tables.Open | student-distrib/sys_calls.c:304-350 | succeeds exactly when a descriptor is free and the name exists; the lowest free one then reads the first entry of that name from position 0 |
| SysCalls.Tables.Close | student-distrib/sys_calls.c:363-386 | succeeds exactly on a live descriptor from 2 to 7, which it clears; all others are untouched |
| SysCalls.Tables.Read | student-distrib/sys_calls.c:247-260 | which descriptors can be read, what bytes arrive and how the position moves |
| SysCalls.Tables.Write | student-distrib/sys_calls.c:277-290 | returns 1 exactly for a clock descriptor and an accepted rate |
| SysCalls.Tables.Create | student-distrib/sys_calls.c:142-166 | the table a new process gets |
| SysCalls.Tables.Destroy | student-distrib/sys_calls.c:49-58 | the process is gone and its clock descriptors are closed in order |
| Rtc.MaskDetectsPowers | student-distrib/devices/rtc.c:174-176 | `n & (n - 1)` is zero exactly for powers of two, for every positive number |
| Rtc.AcceptedRates | student-distrib/devices/rtc.c:165-176 | a write is accepted exactly for powers of two up to 1024 and for the least 32-bit integer |
| Rtc.SelectorFits | student-distrib/devices/rtc.c:241-258 | the shift loop's selector fits four bits and stands for exactly the rate asked for |
| Rtc.WriteSyncs | student-distrib/devices/rtc.c:178-187 | after an accepted write the writer's counter times its rate is the shared rate, exactly when the rate was positive |
| Rtc.SyncSurvives | student-distrib/devices/rtc.c:162-232 | no other process's write or close that is not the last brings a process out of step |
| Rtc.RunsStayInSync | student-distrib/devices/rtc.c:101-232 | a process in step stays so over every run in which it keeps its descriptor |
| Rtc.RunsStayCoherent | student-distrib/devices/rtc.c:101-232 | the reference count is the number of open descriptors, interrupts are on exactly when it is positive, a process with none is at the least rate, the shared rate covers all |
| Rtc.OpenCoherent | student-distrib/devices/rtc.c:101-129 | opening keeps this |
| Rtc.WriteCoherent | student-distrib/devices/rtc.c:162-191 | writing keeps this |
| Rtc.CloseCoherent | student-distrib/devices/rtc.c:201-232 | closing keeps this |
| Rtc.FirstOpenSync | student-distrib/devices/rtc.c:104-126 | after the first open the opener is in step exactly when its old counter was 1 |
| Rtc.FreshOpenIsOut | student-distrib/devices/rtc.c:104-126 | at boot it is not: shared rate, own rate and hardware are at 2 Hz, but its counter limit is 0, so its read does not wait |
| Rtc.FirstOpenAfterRun | student-distrib/devices/rtc.c:101-232 | after any run from boot that closes the clock, it is exactly when it had the shared rate as its counter was last set |
| Rtc.TrimKeepsHardware | student-distrib/devices/rtc.c:223-229 | after a close that is not the last, hardware and shared rate still agree exactly when another process has the shared rate or it was the least |
| Rtc.RunsTrim | student-distrib/devices/rtc.c:101-232 | over every run they agree, and a read of a process in step lasts its period, exactly when no close has trimmed the rate since the hardware was last set |
| Rtc.TrimmedReadIsShort | student-distrib/devices/rtc.c:223-229 | a run of two processes after which a 2 Hz read lasts a quarter of a second |
| Rtc.Driver.Handler | student-distrib/devices/rtc.c:81-91 | one tick off every process's counter |
| Rtc.Driver.Open | student-distrib/devices/rtc.c:101-129 | the whole new state of the clock |
| Rtc.Driver.UpdateProcesses | student-distrib/devices/rtc.c:267-272 | every counter limit is recomputed from the shared rate |
| Rtc.Driver.SetRate | student-distrib/devices/rtc.c:241-258 | the loop computes the binary logarithm of 32768 / rate, plus one |
| Rtc.Driver.Write | student-distrib/devices/rtc.c:162-191 | the whole new state, and 1 or -1 by the acceptance test |
| Rtc.Driver.Close | student-distrib/devices/rtc.c:201-232 | the whole new state, the trimming included |
| Rtc.Driver.Read | student-distrib/devices/rtc.c:140-151 | a read waits exactly its counter limit in ticks, and other processes' counters fall by as many |
| FileSystem.ReadData | student-distrib/fs.c:103-140 | stores exactly the flat file's slice at that offset and length, and counts it, with no wrap |
| Image.ImageReadsBack | student-distrib/fs.h:21-45 | for every list of entries, file lengths, block numbers and blocks that fit: the image put together from them is well formed, and its names, types and inode numbers in order, and every file's bytes, read back as those |
| Image.DataIsData | student-distrib/fs.c:118-137 | if the image is a boot block, the inode blocks and the data, byte o of the k-th block of a file is byte 4096 b + o of the data, b the k-th block number of its inode |
| Image.StoredIsData | student-distrib/fs.c:103-140 | so is every byte that a read from the start of a file leaves in the buffer |
| Image.AssembledIsWellFormed | student-distrib/fs.h:21-45 | every such image satisfies what the other results require of one |
| Image.ImageLookup | student-distrib/sys_calls.c:328-340 | opening by name takes the first entry of that name; type 0 is the clock, 1 the directory, 2 a file with the bytes put in, 3 a terminal, others nothing |
| Image.ImageLists | student-distrib/fs.c:189-209 | directory reads list the names put in, in order, cut to the request, and nothing after the last |
| FileSystem.ContentsFlat | student-distrib/fs.c:118-137 | the flat file is byte for byte what the block walk addresses, for every block and offset; Image.DataIsData says where that is |
| FileSystem.Load | student-distrib/fs.c:220-230 | the whole file is copied |
| FileSystem.SlicesJoin | student-distrib/fs.c:272-284 | consecutive reads join into one |
| FileSystem.LookupFindsFirst | student-distrib/fs.c:53-69 | a lookup succeeds exactly when some entry has the name, and returns the first such entry |
| FileSystem.NameInvertsIndex | student-distrib/fs.c:53-89 | with unique names, lookup by name undoes lookup by index |
| FileSystem.ReadDentryByName | student-distrib/fs.c:53-69 | the loop with its length and byte comparisons is that lookup |
| FileSystem.ReadDentryByIndex | student-distrib/fs.c:80-89 | an entry exactly for an index in range |
| FileSystem.ReadDirectoryEntry | student-distrib/fs.c:189-209 | the name cut to the request is counted; the bytes 10 and 0 follow it in memory |
| FileSystem.Strncmp | student-distrib/lib.c:694-712 | zero exactly when the C strings agree over the given length |
| Bytes.Strlen | student-distrib/lib.c:485-493 | the number of bytes before the NUL |
| Grep.DoOneFile | syscalls/ece391grep.c:9-66 | prints the report of the file's lines as the search sees them, right exactly when no line with the pattern is too long or cut; for a name without a newline, cut at its newlines the output is one entry for each line found, in order: the name, byte 58, the line; fails exactly when the file is missing or no descriptor is free; gives its descriptor back and leaves the others alone |
| Grep.OutputEntries | syscalls/ece391grep.c:43-50 | both the report of the lines seen and that of the file's lines read back as such entries, as many as lines contain the pattern, and end in a newline |
| Grep.OutputIsRight | syscalls/ece391grep.c:20-60 | for every file, name and pattern, the output is the report of the lines exactly when no line with the pattern is longer than the buffer and, with a newline in the byte after it, the line in which the first such full buffer ends has not the pattern |
| Grep.OutputIsRightForAll | syscalls/ece391grep.c:20-60 | without that newline, for every pattern exactly when every line fits the buffer |
| Grep.SameReport | syscalls/ece391grep.c:46-50 | two outputs are the same exactly when the same lines were found |
| Grep.LinesAreTheFile | syscalls/ece391grep.c:20-60 | the lines with their newlines make up the file |
| Grep.WindowStep | syscalls/ece391grep.c:27-60 | one buffer reports its finished lines and leaves the rest to the next, wherever the lines straddle |
| Grep.WindowsShowIff | syscalls/ece391grep.c:30-37 | with a newline in the byte after the buffer, the lines found are right exactly under those two conditions, by recursion over the buffers |
| Grep.SearchFile | syscalls/ece391grep.c:20-60 | the whole loop prints the report of what it sees, for every file and pattern |
| Grep.ScanWindow | syscalls/ece391grep.c:30-60 | a pass searches every finished line of the buffer once and moves the tail to the front |
| Grep.SearchLine | syscalls/ece391grep.c:43-53 | a line is printed once exactly when the pattern occurs in it, with the name and byte 58 before it and byte 10 after it |
| Grep.Strcpy | syscalls/ece391support.c:14-17 | the overlapping forward copy of the tail is right |
| Grep.Strncmp | syscalls/ece391support.c:35-46 | zero exactly when the strings agree over the given length |
| Screen.RunsShow | student-distrib/lib.c:159-191 | over every run of characters and backspaces the grid is the last 25 rows of the unbounded sheet |
| Screen.ClearedRunsShow | student-distrib/lib.c:47-56 | from a cleared screen on, of the sheet of all that was typed |
| Screen.SheetIsText | student-distrib/lib.c:383-407 | from a cleared screen on, the rows of the sheet are the typed text cut at each byte 10 and 13 and after every 80 characters, filled with blanks, the cursor after the last |
| Screen.TextShows | student-distrib/lib.c:383-407 | text printed on a cleared screen shows the last 25 of those rows |
| Screen.BreakGoesDown | student-distrib/lib.c:386-392 | bytes 10 and 13 go to column 0 of the next row and change no cell, but that at the bottom every row moves up and the last is blank |
| Screen.PutShows | student-distrib/lib.c:383-407 | a character on the grid is a character on the sheet, through wrap and scroll |
| Screen.BackspaceShows | student-distrib/lib.c:178-191 | a backspace goes back one place of the sheet, also to the end of the row above |
| Screen.TypedThenErased | student-distrib/lib.c:178-191 | a character and a backspace return to the same place of the sheet, blank, and change nothing else |
| Screen.PutThenBackspace | student-distrib/lib.c:178-191 | the same on the screen, also across a wrap or a scroll, and never at the origin |
| Screen.PutAllMovesOn | student-distrib/lib.c:383-407 | text moves the cursor on by its length at least, or the screen has scrolled |
| Screen.Screen.Putc | student-distrib/lib.c:383-407 | the new grid, cursor in 80x25, with wrap and scroll |
| Screen.Screen.VertScroll | student-distrib/lib.c:159-169 | every row moves up one and the last is blank, in the standard colours |
| Screen.Screen.Backspace | student-distrib/lib.c:178-191 | the place before the cursor is blank and the cursor there |
| Screen.Screen.ClearTerminal | student-distrib/lib.c:47-56 | all blank in the standard colours, cursor at the origin |
| Terminal.ReadsDeliverText | student-distrib/devices/keyboard.c:165-206 | from an empty buffer, over every run of characters, backspaces, reads that begin and Enters, with or without a reader: what was delivered is the front of the text as typed and edited, whatever the sizes of the reads; the buffer is the rest; only an Enter without a reader drops any |
| Terminal.LineIsDelivered | student-distrib/devices/keyboard.c:277-320 | a line typed in part before the read begins and in part after it is delivered whole, with a newline |
| Terminal.RoomIsKept | student-distrib/devices/keyboard.c:287-317 | at most 126 bytes are in the buffer, so that a newline fits, throughout, exactly when no full line is entered for a read of nothing |
| Terminal.Terminal.Update | student-distrib/devices/keyboard.c:277-320 | a key edits the queue's tail, commits or drops it; committed bytes are never erased; the screen follows exactly the keys that took effect, written through an address that reaches it in every page directory; the buffer is zero after its bytes, at most 126 long (127 until the reader has it), and the address is restored |
| Terminal.Terminal.FinishRead | student-distrib/devices/keyboard.c:184-205 | the front of the committed bytes goes to the user's buffer, NULs after it, and leaves the queue; room for a newline is left exactly unless a full buffer was read for nothing |
| Terminal.Terminal.BeginRead | student-distrib/devices/keyboard.c:176-178 | a reader is waiting; nothing else changes |
| Terminal.Terminal.ClearAndReprint | student-distrib/devices/keyboard.c:367-377 | the screen is cleared and shows the buffer |
| Terminal.Terminal.Write | student-distrib/devices/keyboard.c:216-236 | the bytes appear on the screen in order, through the plain address of the terminal's own process, and can never bring the cursor before what the user may erase |
| Terminal.Terminal.constructor | student-distrib/devices/keyboard.c:247-266 | an empty zeroed buffer and the cursor at the origin |
| Paging.UserReach | student-distrib/virtualmem.c:85-132 | for every 32-bit address: a program reaches its own 4 MB and, once mapped, its terminal's screen, and nothing else |
| Paging.ProcessesApart | student-distrib/virtualmem.c:49-55 | two processes reach disjoint memory but for a screen both mapped; never the kernel's page, never another terminal's screen |
| Paging.KernelReaches | student-distrib/virtualmem.c:85-98 | the kernel's page maps to itself in every directory, not for programs |
| Paging.LowReaches | student-distrib/virtualmem.c:49-55 | what every address of the first 4 MB reaches |
| Paging.EchoReachesDisplayed | student-distrib/devices/keyboard.c:277-320 | in every directory the shifted address reaches the displayed screen and the plain one the process's own; they agree exactly when its terminal is displayed |
| Paging.RunsMapOwn | student-distrib/sys_calls.c:427-441 | after any run the directory of a pid is that of the process started last under it, with video memory present exactly when that process called vidmap |
| Paging.VideoOnlyWhenMapped | student-distrib/sys_calls.c:178-183 | so a program reaches video memory exactly when it asked for it itself, also after the pid is used again |
| Paging.VidmapReaches | student-distrib/sys_calls.c:427-441 | after any run, once the process calls vidmap with a pointer of its own, address 0x8400000 and the 4095 after it reach its terminal's screen from the first byte on, and can be written |
| Paging.OrFlags | student-distrib/virtualmem.c:112-119 | setting flags by bitwise or leaves the frame as it was |
| Paging.Mmu.VirtualMemInit | student-distrib/virtualmem.c:34-55 | the loops fill the tables as the translation results need |
| Paging.Mmu.PdInit | student-distrib/virtualmem.c:85-98 | the kernel's entries and no other; other directories untouched |
| Paging.Mmu.SetPde | student-distrib/virtualmem.c:112-119 | one entry: the address cut to its page, with the flags |
| Paging.Mmu.SetPdeFlags | student-distrib/virtualmem.c:130-132 | flags are added to one entry |
| Paging.Mmu.MapProgram | student-distrib/sys_calls.c:178-183 | execute gives the pid a fresh directory with its 4 MB |
| Paging.Mmu.Vidmap | student-distrib/sys_calls.c:427-441 | for a pointer from 0x8000000 to 0x83FFFFF gives back and stores 0x8400000 and makes one entry present; otherwise -1 and nothing |
| Blink.RunsShow | fish/blink.S:49-99 | for distinct locations, after any run of adds, removes and ticks every listed cell shows the character of its status |
| Blink.PhaseLasts | fish/blink.S:63-86 | a phase keeps its state for its ticks and then the other begins with its own length; the ticks are the length exactly for 1 to 32768 |
| Blink.CellBlinks | fish/blink.S:63-86 | over every run: a cell added with lengths m and n of at least 1, and not removed, shows its on character k ticks later exactly when k modulo m + n is less than m, else its off character |
| Blink.Rhythm | fish/blink.S:63-86 | the same of the status of one entry that starts on with its whole length to go, for every number of ticks |
| Blink.PlaceRests | fish/blink.S:49-99 | over every run, a place of the screen with no listed cell keeps its character until a cell is added there |
| Blink.RemoveRests | fish/blink.S:187-237 | a remove changes nothing on the screen and leaves no cell at its place |
| Blink.TickShows | fish/blink.S:49-99 | a tick keeps the screen right |
| Blink.StacksFollow | fish/blink.S:105-237 | each location is a stack: an accepted add pushes, a remove pops, a tick changes entries in place, and no event touches another location |
| Blink.RemovePops | fish/blink.S:187-237 | removing at a location exposes the entry before it there and touches no other location |
| Blink.FindsTop | fish/blink.S:351-379 | finding returns the newest entry at the location |
| Blink.AddLinks | fish/blink.S:142-162 | adding keeps the list acyclic with the used slots as its nodes, and puts the entry in front |
| Blink.AddLinksIff | fish/fish.c:161-171 | exactly for a non-zero location |
| Blink.SecondAddCycles | fish/fish.c:161-171 | after an add at location 0 the next takes the same slot; a walk from the head then never ends and no list fits |
| Blink.RemoveUnlinks | fish/blink.S:202-222 | unlinking and clearing a slot keeps the list, and takes out that entry |
| Blink.FullWhenAllListed | fish/fish.c:161-171 | there is no free slot exactly when all are listed |
| Blink.Blinker.Malloc | fish/fish.c:161-171 | the first slot with location 0, or none |
| Blink.Blinker.Add | fish/blink.S:105-182 | fails exactly off the screen or with 2000 listed; else the entry is first and shown on, and the list is kept unless its location is 0, when no list fits |
| Blink.Blinker.FindHelper | fish/blink.S:351-379 | the slot of the newest entry at the location; the loop ends |
| Blink.Blinker.Find | fish/blink.S:302-347 | the newest entry, or failure |
| Blink.Blinker.Remove | fish/blink.S:187-237 | takes out the newest entry at the location; fails exactly when there is none |
| Blink.Blinker.Tick | fish/blink.S:49-99 | every listed entry ticks once, in order, and the screen is poked accordingly; the loop ends |
| Memory.MemSet | student-distrib/lib.c:505-541 | head, double words and tail together are the plain byte loop, for every alignment and length |
| Memory.MemCpy | student-distrib/lib.c:606-645 | as if copied at once, for every alignment and length, unless the destination begins inside the source |
| Memory.MemMove | student-distrib/lib.c:658-678 | as if from a snapshot, for every overlap |
| Memory.SpreadBytes | student-distrib/lib.c:536-540 | the double word that is stored holds the byte four times |
| Digits.NumeralDecodes | student-distrib/lib.c:419-450 | the numeral reads as the value and has no leading zero, in every radix from 2 to 36 |
| Digits.NumeralUnique | student-distrib/lib.c:419-450 | and it is the only such numeral |
| Digits.Itoa | student-distrib/lib.c:419-450 | the loop and the reversal write exactly that numeral and a NUL |
| Digits.Strrev | student-distrib/lib.c:461-476 | the string is reversed in place, nothing else changes |
| Digits.PrintHexPadded | student-distrib/lib.c:250-262 | always eight hexadecimal digits with the value of the argument |
| Digits.PrintSigned | student-distrib/lib.c:278-292 | the digits read in decimal as the value, or after a minus sign as its size, without a leading zero; also for the least integer |
| Digits.DigitsInOrder | student-distrib/lib.c:421-421 | the digits are 0 to 9 and then A to Z, each with its place as value, and no other character is one |

## Left out

- Interleavings inside a call: system calls, key handling and interrupts are atomic steps, as execute and halt are with interrupts off; an Enter and the read it completes happen before the next key on that terminal.
- Stack switches and saved registers of execute, halt and the timer handler: only which pid runs next is modelled.
- Port programming, the interrupt controller, descriptor tables of the processor and boot code: only the clock's selector and its interrupts on or off are state.
- SysCalls.Tables.Read: descriptors on a terminal are read in the module Terminal instead; the file image is well formed (names end within 32 bytes, block numbers in range, lengths at most 1023 blocks, known entry types), and the block pointer that fs.c:132-135 computes one block ahead is not dereferenced by the model until it is used.
- SysCalls.Tables.Write: what a terminal descriptor writes is in the module Terminal.
- Terminal.Terminal.FinishRead: a negative size, which memcpy would take for a huge one; and what a further Enter does to a buffer that a read of nothing has left full.
- Terminal.ReadsDeliverText: the keys are printable characters, backspace and Enter; an Enter and the read it completes are one step, and a character for which there is no room is dropped, as in the code.
- Kernel.Kernel.Execute: the program's file is summed up by whether it can be loaded; the shell always can; arguments and the exit status are not modelled.
- Fairness.TurnsAreFair: the turns counted are the ticks that choose a terminal and the ends of children that ticks had started; a tick that starts the pending shell is not one.  Fairness.WaitsAreShortIff is for at least as many pids as terminals.
- Grep.DoOneFile: the file has no NUL and the name, if it exists, stands for a regular file; reads and the close never fail there, so the branches for that are not modelled.
- Paging.ProcessesApart: physical addresses are unbounded integers; with at most 1022 pids, which the runs require, they fit 32 bits.
- The fish program's sync call, whose conditional move always picks the off character, and its reading of the two frames.
- Memory.MemMove: the direction flag it leaves set.
- Fault messages, the scancode table with shift and caps lock, multiboot printing, set_handler and sigreturn, getargs and parse_arg, the small user programs.
