# TedkOS, modelled and verified

TedkOS is a small x86 kernel with user programs and tools. This project models
the parts of it whose correctness is not obvious from one function, and proves
what they are for. `dafny verify dfyconfig.toml` checks everything.

| component | files | what is proved |
|---|---|---|
| SHA-1 | Sha1Spec, Sha1, Sha1Vector | however a message is cut into calls, the result is the digest of RFC 3174, or the length error exactly when it is due; the digest of "abc" is worked out in full |
| scheduler, exec and halt | SchedState, SchedInvariant, SchedSteps, SchedTheorems, SchedFairness, Sched | over all runs from boot: a switch goes only to a queued runnable thread, exec chains are well founded, wake-ups reach exactly the thread they are for, and every runnable thread is chosen after a bounded number of decisions, and runs after the next dispatch |
| page maps | PhysAddr, PageMap, ProcessMap, MemMap, PagingRuns | the two tables of a map stay inverse, an ordinary load is never refused and makes exactly the union, the common pages stay active, the roll-back of a delete is unreachable |
| process heap | Heap | sbrk succeeds exactly when the pages can be had, has exactly those its size needs, and its state depends on the size only |
| kernel allocator | Pools, Arenas, KMalloc | over all interleavings live blocks never overlap and every block goes back to its own pool |
| file system | Blocks, HashTable, KissSpec, KissFs, CreateFs, FsRoundTrip | what createfs lays out, for any random placement, the kernel opens by the file's own name and reads back byte for byte, as a run of both programs |
| terminal | LineEditor, Terminal | in every run from boot any editing can be undone, the cursor stays on the screen, a reader gets the edited line; what is printed stands on the screen where it should |
| smaller parts | CArray, RingBuffer, Rtc | parser and printer of .carr files undo each other; the ring buffer is a sequence of the newest elements; virtual clocks divide the hardware clock exactly and lose no tick |

Each component has a specification on values, whose properties are lemmas over
all inputs or all runs, and classes and loops in the program's own form, each
proved to do what the specification says.

Where the code does something else than its purpose asks for, the code is
modelled as it is, and the exact condition is proved under which it does what
it should:

- `SHA1Input` reports success for the call that makes the message too long; only
  the calls after it fail, with the value 1, which is the code for a null
  pointer and not the one for a too long input.
- `MemMap::add` does not look for a vacant place when the page is the kernel's
  (PageMap.AddKeepsInverse).
- `loadProcessMap` does not look at the result of the merge
  (ProcessMap.LoadKeepsCommon, ProcessMap.SharedPageLosesAnother).
- `sbrk` keeps the new size when a growth fails, that is when a page in its turn
  is not to be had: none is free, the entry on top of the free stack is stale, or
  its place in the process is taken (Heap.ProcessDesc.Sbrk with Heap.Reaches).
- `ObjectPool::release` clears a mark that it should set, so a double free is
  noticed only for blocks that were never handed out
  (Pools.DoubleFreeIsHandedOutTwice, Arenas.FreeAccepts).
- `totalNumPools` counts down for each recycled pool
  (Arenas.RecyclingMiscounts).
- `VirtualMemRegion::freePage` never gives a page of the region back
  (KMalloc.VirtualMemRegion.FreePage, KMalloc.AcquirePage).
- `readData` does not hold a piece to what is left of its block
  (KissSpec.ReadIsExactSlice), and past the end of a file its 32-bit difference
  wraps (KissSpec.ReadPastEnd).
- The reader holds the number of inodes to 64 and then looks for data behind 64
  inode blocks, while createfs writes up to 124 (FsRoundTrip.SameBlock).
- The index check of `ArrFile` wraps for an empty file
  (CArray.ArrFile.IndexCheck).

The terminal by itself would keep the line, and in the end write behind its
buffer, if readers waited with null buffers (LineEditor.EnterEmptiesBuffer,
LineEditor.NullReadersOverflow); the read system call refuses null first
(student-distrib/syscalls/filesystem_wrapper.cpp:11-19,
student-distrib/syscalls/syscalls.cpp:23-41), so no run of the kernel gets there
(LineEditor.EveryRunIsOk).

Assumptions that the statements rest on:

- In the scheduler's runs a system call is one step, although some of them, such
  as exec, call several functions that take and release the lock one after the
  other; so is each timer interrupt, wake-up and dispatch. Interrupts nest only
  where the code looks at the nesting depth.
- Boot attaches every kernel thread there is. The idle thread is the first
  process and only halts the CPU; it never enters the kernel by a system call.
- Page numbers that memory detection hands out have twelve bits and are not the
  kernel's.
- `sbrk` is called by the process whose map the CPU shows, and that process
  shares no page with the common map; both hold again when it returns.
- Callers of `kmalloc` free only blocks they hold; pages come from the region
  of the last gigabyte, which nobody else maps there.
- Names in an image have no null in them; for the round trip they differ in
  their first 31 characters, and none of them is ".".
- Memory behind an image or a .carr buffer reads as zero.

## Model

The first rows are the main results; the others follow by component.

| member | source | states |
|---|---|---|
| Sha1.DigestOfPieces | userland/shafile/sha1.c:59-389 | for every way of cutting a message into SHA1Input calls after SHA1Reset, SHA1Result succeeds exactly when the message is shorter than 2^61 bytes, returns the digest that sections 4 to 6.1 of RFC 3174 define for the whole message, and returns the same digest when asked again; else it returns 1 |
| Sha1Vector.KnownAnswer | userland/shafile/sha1.c:59-389 | the digest of "abc" is that of section 7.3 of RFC 3174, worked out through all 80 rounds |
| SchedTheorems.DispatchIsSafe | student-distrib/proc/sched.cpp:201-251 | in every run from boot a pending switch names a queued Running thread, and after each outermost dispatch the thread that goes on is queued and Running: never Waiting, never removed |
| SchedTheorems.DispatchSwitches | student-distrib/proc/sched.cpp:201-251 | at the end of an outermost interrupt the CPU goes on with the thread of the pending switch, which is used up if the thread changes; a nested one does nothing |
| SchedFairness.BoundedWaiting | student-distrib/proc/sched.cpp:55-74 | a thread that stays Running is chosen within n(n+1)/2 + 1 decisions, n being the length of the queue, whatever else attaches, blocks, wakes, executes or halts |
| SchedFairness.BoundedService | student-distrib/proc/sched.cpp:55-251 | so a thread that stays Running gets the CPU within n(n+1)/2 + 1 decisions, if each is followed by the end of an outermost interrupt before the next |
| SchedFairness.RoundRobinSinceLastHalt | student-distrib/proc/sched.cpp:55-74 | counted from the last halt, n decisions are enough |
| SchedTheorems.NothingGetsStuck | student-distrib/proc/sched.cpp:55-74 | in every run from boot the decision loop ends: the queue has a Running thread |
| SchedTheorems.ExecChains | student-distrib/syscalls/exec.cpp:25-40 | in every run from boot the parent of an exec'd process is alive, older and Waiting, and has no other live child |
| SchedTheorems.WakeUpsAreRight | student-distrib/proc/sched.cpp:253-299 | a step makes a Waiting thread Running if and only if it is the parent of the process that halts, the reader waiting for the line just entered, or the reader waiting for the clock that ticks; Enter and ticks never wake a thread that waits for a child |
| SchedTheorems.SleepsAreRight | student-distrib/proc/sched.cpp:253-260 | a step makes a Running thread Waiting if and only if it is the thread on the CPU and it executes another program, reads a line that is not there yet, or reads a clock without backlog |
| SchedTheorems.NoLostWakeUps | student-distrib/drivers/terminal.cpp:51-79 | in every run from boot a Waiting thread waits for a child that is alive, a terminal that has it as its waiting reader, or a clock that has it as its waiting reader |
| SchedTheorems.ReadsAreNeverRefused | student-distrib/drivers/terminal.cpp:180-211 | in every run from boot the terminal of the thread on the CPU is free or its own |
| PagingRuns.CommonPagesStayActive | student-distrib/klibs/palloc.cpp:229-324 | over every run of calls of careful callers from boot the common map is contained in the active map |
| PageMap.HistoryKeepsInverse | student-distrib/klibs/palloc.cpp:41-141 | over every history of add, remove by either address and clear the two tables stay inverse |
| ProcessMap.LoadedIsUnion | student-distrib/klibs/palloc.cpp:285-324 | a load of a process that shares no page with the common map makes the active map exactly kernel page, process pages and common pages, with inverse tables |
| ProcessMap.OrdinaryLoad | student-distrib/klibs/palloc.cpp:285-324 | a process whose places and pages the common map does not use is never refused, and the CPU then shows exactly its pages, the kernel and the common pages |
| ProcessMap.LoadKeepsCommon | student-distrib/klibs/palloc.cpp:285-324 | a load that finds no conflict keeps the common pages active if and only if the process maps none of them or all of them itself: the result of the merge is not looked at |
| Heap.ProcessDesc.Sbrk | student-distrib/proc/tasks.cpp:49-81 | it succeeds if and only if the break stays in the heap, each page more can be had in its turn, and the map of the process can be loaded, as it can be whenever the common map has nothing at the places of the process and its new heap; then it returns the old break, with exactly ceil(size / 4 MB) pages, and the CPU's map loaded from them; when pages are missing the new size stays; whatever happens heap page i is mapped at start + i to entry i of the page stack |
| Heap.ResizingForgetsTheWay | student-distrib/proc/tasks.cpp:55-78 | resizing twice is resizing once: free set, its order, mappings and heap pages depend on the last size only, so sbrk(d) then sbrk(-d) restores all of them |
| Heap.ResizingConservesPages | student-distrib/proc/tasks.cpp:55-78 | owned and free pages together never change |
| Arenas.EveryRunIsSafe | student-distrib/klibs/kmalloc.cpp:99-284 | over every interleaving of requests and frees of live blocks, of all size classes, live blocks never touch, each has at least the size asked for, and no free is refused |
| Arenas.AllocateFails | student-distrib/klibs/kmalloc.cpp:133-184 | a request fails if and only if every block of its slot is live and the slot is full, or no page can be recycled and none is to be had |
| Arenas.FreeReturnsToOwner | student-distrib/klibs/kmalloc.cpp:186-284 | freeing a live block, with or without its size, pushes it on the stack of exactly the pool it came from |
| FsRoundTrip.WriteThenReadByName | createfs.c:64-222 | createfs on a directory with at most 32 files of at most 1023 blocks, whose names have at most 31 characters, differ and are not ".", then the kernel opening any of them by its own name and reading on, with any chunk that divides the block size or is whole blocks: exactly the original bytes; only when the random numbers run out is there no image |
| FsRoundTrip.ReadsBackWhatWasWritten | student-distrib/fs/kissfs.cpp:225-261 | for every outcome of the random placement, opening a name of an image of at most 32 files and reading on with any chunk that divides the block size, or is whole blocks, gives back exactly the original bytes, and then nothing |
| FsRoundTrip.SameBlock | student-distrib/fs/kissfs.cpp:263-270 | the reader looks for a data block where the writer put it if and only if the image has at most 64 inodes, that is 32 files |
| KissSpec.ReadIsExactSlice | student-distrib/fs/kissfs.cpp:225-261 | readData copies exactly the slice [offset, min(offset + length, size)) if and only if the read starts a block, stays inside one, or runs into a second block that happens to follow in the image; the length of a piece is not capped by what is left of its block |
| LineEditor.EveryLineCanBeUndone | student-distrib/drivers/terminal.cpp:51-366 | the same in every run from boot, from any moment at which the buffer was empty up to any moment before it is emptied again |
| LineEditor.EditingCanBeUndone | student-distrib/drivers/terminal.cpp:81-136 | from any screen with an empty buffer, after any mix of characters, tabs and backspaces, erasing what is left puts the cursor back in the column where it was, and on the row where it was less the lines scrolled away since |
| LineEditor.EveryRunIsOk | student-distrib/drivers/terminal.cpp:51-366 | over every run from boot the cursor stays on the 80 x 25 screen, the buffer index below 128, and no reader waits with a null buffer |
| LineEditor.ReaderGetsLine | student-distrib/drivers/terminal.cpp:51-79 | a reader waiting for n bytes gets, on Enter, the first n bytes of the typed text with backspaces applied, and the newline |
| LineEditor.EnterGoesDown | student-distrib/drivers/terminal.cpp:51-79 | Enter puts the cursor at the start of the next line, also where the screen scrolls, and nobody waits any more |
| Terminal.Term.Write | student-distrib/drivers/terminal.cpp:233-245 | prints up to a null or the count, returns how many, and the screen shows each character at its place, everything else as it was or scrolled |
| CArray.PrintThenParse | student-distrib/klibs/arrFile.cpp:12-39 | parsing what was printed gives the same items, empty ones included, and stops where the printing stopped |
| CArray.ParseThenPrint | student-distrib/klibs/arrFile.cpp:12-39 | whenever the parser accepts, printing the items gives the bytes it went over |
| Rtc.TicksAreDivided | student-distrib/drivers/rtc.cpp:37-56 | with divider n, k interrupts make floor((min(c, n) + k - 1) / n) ticks from counter c |
| Rtc.NoTickIsLost | student-distrib/drivers/rtc.cpp:37-119 | over every run ticks = completed reads + backlog, and nobody waits while there is a backlog |
| Rtc.EachReadGetsATick | student-distrib/drivers/rtc.cpp:37-119 | over every run in which a blocked reader does not read again, as many reads are completed as were asked for, as far as there were ticks, and one waits if and only if there were not enough |
| RingBuffer.NewestAreKept | student-distrib/klibs/ringbuf.cpp:30-44 | after any number of pushes the buffer holds the newest elements, as many as fit |
| Sha1.Sha1Context.Reset | userland/shafile/sha1.c:59-80 | the context is at the start of the empty message, with the five initial hash words |
| Sha1.Sha1Context.Input | userland/shafile/sha1.c:159-209 | every return code; the absorbed message grows by exactly the bytes given; the context becomes corrupted, with the value 1, exactly when the message reaches 2^64 bits, although that call still reports success; input after the result is a state error |
| Sha1.Sha1Context.TakeByte | userland/shafile/sha1.c:184-206 | one byte keeps the context invariant: index = bytes mod 64, bit count = 8 times the bytes, hash = hash of the whole blocks so far; at 2^61 bytes it marks the context corrupted with the value 1 |
| Sha1.Sha1Context.CountByte | userland/shafile/sha1.c:189-198 | the two 32-bit halves stay 8 times the byte count, and overflow, with the value 1, exactly at 2^61 bytes |
| Sha1.Sha1Context.FinishBlock | userland/shafile/sha1.c:200-203 | a full block is compressed into the hash of the longer message |
| Sha1.Sha1Context.PrepareSchedule | userland/shafile/sha1.c:245-259 | the 80 words are the schedule of section 6.1 of RFC 3174 |
| Sha1.Sha1Context.RunRounds | userland/shafile/sha1.c:261-308 | the four round loops compute the 80 rounds of the standard |
| Sha1.Sha1Context.ProcessMessageBlock | userland/shafile/sha1.c:232-317 | the hash value becomes the compression of itself with the block |
| Sha1.Sha1Context.StoreLength | userland/shafile/sha1.c:379-386 | the last eight bytes are the 64-bit big-endian bit count |
| Sha1.Sha1Context.PadMessage | userland/shafile/sha1.c:343-389 | the hash becomes that of the padded message, in one block or two |
| Sha1.Sha1Context.Result | userland/shafile/sha1.c:101-137 | a null output and a corrupted context are refused with their codes; otherwise the digest of everything absorbed, and the context can be asked again |
| Sha1.LoadWord | userland/shafile/sha1.c:248-254 | four bytes shifted together are the big-endian word of the standard |
| Sha1.CircularShift1 | userland/shafile/sha1.c:37-38 | two shifts are the rotation of section 3 of RFC 3174 |
| Sha1.CircularShift5 | userland/shafile/sha1.c:37-38 | likewise for five places |
| Sha1.CircularShift30 | userland/shafile/sha1.c:37-38 | likewise for thirty places |
| Sha1.F0 | userland/shafile/sha1.c:267-270 | the expression of the first twenty rounds is f of section 5 of RFC 3174 |
| Sha1.F1 | userland/shafile/sha1.c:279-302 | the same for the second twenty rounds, and the fourth |
| Sha1.F2 | userland/shafile/sha1.c:289-292 | the same for the third twenty rounds |
| Sha1.BitCountCarries | userland/shafile/sha1.c:189-198 | the carry between the halves, for every count below 2^64 bits |
| Sha1.LastBlocks | userland/shafile/sha1.c:343-389 | the one or two last blocks, hashed after the others, give the hash of the padded message |
| Sha1Spec.HashBlocksConcat | userland/shafile/sha1.c:232-317 | hashing is a fold: blocks appended are hashed from the hash of the blocks before |
| Sha1Spec.PaddingTakesOneOrTwoBlocks | userland/shafile/sha1.c:343-389 | padding ends on a block boundary, with one block more than the whole blocks, or two |
| Sha1Spec.PadIsInjective | userland/shafile/sha1.c:343-389 | different messages are padded to different blocks |
| Sha1Vector.HashAbc | userland/shafile/sha1.c:59-389 | and that is what the program gives for "abc", however it is cut, also when asked again |
| SchedTheorems.ExecEffect | student-distrib/syscalls/exec.cpp:25-40 | exec makes exactly one Running child and makes exactly the caller Waiting |
| SchedTheorems.HaltEffect | student-distrib/proc/sched.cpp:268-299 | halting removes exactly the caller and makes exactly its parent Running |
| SchedTheorems.InterruptWakes | student-distrib/drivers/rtc.cpp:37-56 | Enter and ticks make a Waiting thread Running if and only if it is the reader waiting for that line or clock, and then it was not waiting for a child |
| SchedTheorems.OthersWakeNobody | student-distrib/proc/sched.cpp:35-80 | no other entry makes a Waiting thread Running |
| SchedTheorems.BootRunInv | student-distrib/proc/sched.cpp:148-190 | and so in every state of a run from boot |
| SchedTheorems.OnlyDispatchSwitches | student-distrib/proc/sched.cpp:201-251 | nothing else changes the thread on the CPU |
| SchedTheorems.OwnersAreRight | student-distrib/drivers/terminal.cpp:180-280 | who owns a terminal after each step, and that a reader waits on it from its read to the next Enter |
| SchedTheorems.ClocksAreRight | student-distrib/drivers/rtc.cpp:37-119 | which clock devices are open after each step, who waits for them, and that a tick without reader is kept until a read uses it up |
| SchedTheorems.RunsGoOn | student-distrib/proc/sched.cpp:35-299 | a run from boot goes on with every entry that is open |
| SchedTheorems.EntriesAreOpen | student-distrib/proc/sched.cpp:35-299 | interrupts may always come, and a thread in user mode may make every system call |
| SchedTheorems.BackInUserMode | student-distrib/proc/sched.cpp:201-251 | in every run from boot the thread on the CPU is in user mode when an outermost interrupt has ended, unless it is the idle thread |
| SchedFairness.StepLowersPotential | student-distrib/proc/sched.cpp:268-299 | each step pays for its decision with the potential of a thread not chosen, although a halt turns the queue |
| SchedFairness.DecideAdvances | student-distrib/proc/sched.cpp:55-74 | a decision that passes a Running thread over moves it forward |
| SchedFairness.ChosenRuns | student-distrib/proc/sched.cpp:201-251 | a thread that was chosen is on the CPU, Running, after the next outermost dispatch, if no other decision comes in between |
| SchedInvariant.BootSatisfiesInv | student-distrib/proc/sched.cpp:148-190 | the machine at boot, with any number of kernel threads |
| SchedInvariant.DecideKeeps | student-distrib/proc/sched.cpp:55-74 | a decision chooses a queued Running thread, turns the queue and changes nothing else |
| SchedInvariant.InvGivesWellFormed | student-distrib/proc/sched.cpp:253-299 | on every reachable state each entry finds the processes it looks up |
| SchedInvariant.BootHasGuards | student-distrib/init/init.cpp:67-80 | boot leaves one Running thread for each keyboard client beside the idle thread, and each text terminal belongs to the thread that guards it |
| SchedSteps.StepKeepsInv | student-distrib/proc/sched.cpp:35-299 | every kernel entry keeps the invariant |
| SchedSteps.ChainGrows | student-distrib/syscalls/exec.cpp:25-40 | the child takes the caller's place at the end of the exec chain on their terminal, and the caller waits for exactly it |
| SchedSteps.ChainShrinks | student-distrib/proc/sched.cpp:268-299 | the parent was waiting for exactly this child and takes its place back |
| SchedSteps.HaltQueue | student-distrib/proc/sched.cpp:286-293 | the queue keeps each other thread once, in the same cyclic order: what was behind the caller, then what was before it |
| SchedSteps.TerminalIsFree | student-distrib/drivers/terminal.cpp:186-195 | the terminal of the thread on the CPU belongs to it or to nobody, and nobody waits on it |
| SchedSteps.EnterWorld | student-distrib/drivers/terminal.cpp:68-77 | Enter wakes the owner, which was waiting for exactly this terminal |
| SchedSteps.TickWorld | student-distrib/drivers/rtc.cpp:40-48 | a tick wakes the thread that was waiting for exactly this clock |
| Sched.Kernel.constructor | student-distrib/proc/sched.cpp:26-33 | the machine that boot leaves |
| Sched.Kernel.MakeDecisionNoLock | student-distrib/proc/sched.cpp:55-74 | whenever some queued thread can run, or none is queued, the loop ends and does what the decision of the state machine says |
| Sched.Kernel.Block | student-distrib/proc/sched.cpp:253-260 | the thread is Waiting and the first Running thread of the queue is the pending switch; it is asked only that there is one, as the loop would not end without |
| Sched.Kernel.SysExec | student-distrib/syscalls/exec.cpp:25-40 | a name that cannot be executed changes nothing; else a Running child with the caller as parent, last in the queue and owner of the terminal if that was free or the caller's; the caller Waiting; a decision |
| Sched.Kernel.RemoveFromQueue | student-distrib/proc/sched.cpp:286-293 | the loop ends, and the queue is what was behind the thread followed by what was before it |
| Sched.Kernel.Halt | student-distrib/proc/sched.cpp:268-299 | without a parent nothing changes; else the terminal is free, the caller gone from table, devices and queue, its parent Running, and a new decision made, so the pending switch is not the thread removed |
| Sched.Kernel.TermRead | student-distrib/drivers/terminal.cpp:180-211 | another owner is left alone; a free terminal becomes the caller's; without enough text the caller is the waiting reader and blocks |
| Sched.Kernel.EnterHandler | student-distrib/drivers/terminal.cpp:68-78 | a waiting reader is Running and no longer waited for; otherwise nothing changes |
| Sched.Kernel.RtcRead | student-distrib/drivers/rtc.cpp:102-119 | a tick of the backlog is used up, or the caller is the device's waiting reader and blocks |
| Sched.Kernel.TriggerIfPossible | student-distrib/drivers/rtc.cpp:37-56 | a tick makes the waiting reader Running, or adds to the backlog |
| Sched.Kernel.SchedDispatchExecution | student-distrib/proc/sched.cpp:201-251 | nothing when nested, without a pending switch, or to the thread that runs; else the switch |
| Sched.IdleCanRun | student-distrib/proc/sched.cpp:60-67 | a decision can always be made, also when any thread but the idle one blocks |
| PhysAddr.IndexIsRecovered | student-distrib/klibs/palloc.cpp:19-31 | index() gives back the page index an entry was made from if and only if the index has at most 12 bits and the flags put nothing into the index field but bits it has anyway; with flags outside that field they come back, too |
| PhysAddr.IndexOfEncode | student-distrib/klibs/palloc.cpp:19-31 | in general it gives back the low 12 bits, or-ed with what the flags put into the index field |
| PhysAddr.EntryNamesPage | student-distrib/klibs/palloc.cpp:19-39 | an entry made for a 12-bit index is present and names that page |
| PhysAddr.SamePageSameIndex | student-distrib/inc/klibs/palloc.h:44-53 | entries that differ in accessed and dirty bits only name the same page |
| PhysAddr.EntryLayout | student-distrib/klibs/palloc.cpp:19-31 | an entry is the page number from bit 22 up, its two highest bits in bits 13 and 14, the flags, present and 4 MB |
| PhysAddr.SamePageIgnoresUse | student-distrib/inc/klibs/palloc.h:44-53 | entries that compare as equal become the same if the accessed and dirty bits are set in both |
| PhysAddr.UseIgnoredIsSamePage | student-distrib/inc/klibs/palloc.h:44-53 | and the other way round |
| PhysAddr.GlobalIsMarked | student-distrib/klibs/palloc.cpp:229-234 | a common page is marked global, and nothing else changes in its entry |
| PageMap.AddKeepsInverse | student-distrib/klibs/palloc.cpp:82-101 | adding keeps the two tables inverse if and only if it does not put the kernel's page over a page that is shown, the one case the occupancy check skips |
| PageMap.RemoveVirtKeepsInverse | student-distrib/klibs/palloc.cpp:103-120 | removing by virtual address keeps the tables inverse |
| PageMap.RemovePhysKeepsInverse | student-distrib/klibs/palloc.cpp:122-141 | so does removing by physical address |
| PageMap.MergedVirt | student-distrib/klibs/palloc.cpp:143-170 | what a merge shows at each virtual page |
| PageMap.MergedPhys | student-distrib/klibs/palloc.cpp:143-170 | where a merge shows each physical page |
| PageMap.MergeKeepsInverse | student-distrib/klibs/palloc.cpp:143-170 | a merge keeps the tables inverse if and only if no physical page is in both |
| PageMap.AddsWhereVacant | student-distrib/klibs/palloc.cpp:82-101 | a page other than the kernel's can be added exactly at a vacant place from 2 up, if it is not shown elsewhere |
| PageMap.RemovesWhatIsShown | student-distrib/klibs/palloc.cpp:103-141 | each page shown from 2 up can be removed by its place, and nothing else changes; removing it by its number does the same |
| PageMap.RemovesOnlyShown | student-distrib/klibs/palloc.cpp:122-141 | only a page that is shown can be removed by its number |
| ProcessMap.AddAllIsExact | student-distrib/klibs/palloc.cpp:308-312 | into a cleared map every mapping of a process takes, and nothing else is there |
| ProcessMap.SharedPageLosesAnother | student-distrib/klibs/palloc.cpp:314-314 | the failing case: a process that maps one common page itself loses every common page that it does not map |
| ProcessMap.ConflictIsDifference | student-distrib/klibs/palloc.cpp:294-307 | a load conflicts if and only if process and common map show different pages at some place from 2 up |
| MemMaps.MemMap.Add | student-distrib/klibs/palloc.cpp:82-101 | when it succeeds, and both tables afterwards |
| MemMaps.MemMap.SubVirt | student-distrib/klibs/palloc.cpp:103-120 | when it succeeds, and both tables afterwards |
| MemMaps.MemMap.SubPhys | student-distrib/klibs/palloc.cpp:122-141 | when it succeeds, and both tables afterwards |
| MemMaps.MemMap.AddMap | student-distrib/klibs/palloc.cpp:143-170 | succeeds exactly when no virtual page from 2 up is in both; then the union, otherwise nothing changes |
| MemMaps.TinyMemMap.Add | student-distrib/klibs/palloc.cpp:188-198 | refused exactly when the virtual page is in use; the stack never overflows |
| MemMaps.TinyMemMap.Remove | student-distrib/klibs/palloc.cpp:200-210 | the first mapping of that physical page goes, whichever virtual page it is for |
| MemMaps.MemMapManager.Start | student-distrib/klibs/palloc.cpp:326-331 | the active map gets the kernel page; one step of MapStep, as each of the calls below |
| MemMaps.MemMapManager.AddCommonPage | student-distrib/klibs/palloc.cpp:229-247 | both maps take the page, or neither changes: the roll-back restores the common map exactly |
| MemMaps.MemMapManager.DelCommonPage | student-distrib/klibs/palloc.cpp:249-265 | both maps lose the page, or the active map does not change and the common map has its entry back |
| MemMaps.MemMapManager.DelCommonPageByPhys | student-distrib/klibs/palloc.cpp:267-283 | the same, found by its physical page, but what comes back is the entry of the caller |
| MemMaps.MemMapManager.LoadProcessMap | student-distrib/klibs/palloc.cpp:285-324 | refused before start or on a conflict, and then nothing changes; else the other map is filled and becomes active; after start a process at whose places the common map has nothing is never refused |
| MemMaps.MemMapManager.FindConflict | student-distrib/klibs/palloc.cpp:294-307 | whether process and common map show different pages somewhere |
| MemMaps.AddThenRemove | student-distrib/klibs/palloc.cpp:235-246 | removing right after adding gives the map back |
| PagingRuns.RollbackIsUnreachable | student-distrib/klibs/palloc.cpp:249-265 | deleting a common page never meets a page that is not active |
| PagingRuns.StepKeepsMaps | student-distrib/klibs/palloc.cpp:229-324 | each call of a careful caller keeps the common map inverse and contained in the active map |
| PagingRuns.CommonPageComesAndGoes | student-distrib/klibs/palloc.cpp:229-283 | a page put at a vacant place shows in both maps at once, and deleting it by place or by number gives back both maps |
| Heap.ProcessDesc.FitPages | student-distrib/proc/tasks.cpp:55-78 | both loops: they succeed if and only if the pages can be had, then the heap has exactly those its size needs; else growing stopped at the first that could not be had; the heap is in order either way |
| Heap.ProcessDesc.GrowHeap | student-distrib/proc/tasks.cpp:55-65 | all pages came, or the first that did not is named |
| Heap.ProcessDesc.AddPage | student-distrib/proc/tasks.cpp:57-64 | one page more at the next virtual page, or the free stack lost its top |
| Heap.ProcessDesc.ShrinkHeap | student-distrib/proc/tasks.cpp:66-78 | exactly the pages that the size does not need are given back |
| Heap.ProcessDesc.DropPage | student-distrib/proc/tasks.cpp:68-77 | the check against the CPU's map passes and the topmost page goes |
| Heap.ProcessDesc.FreeHeap | student-distrib/proc/tasks.cpp:28-33 | the destructor gives the pages back as shrinking to nothing would |
| Heap.PhysPageManager.AllocPage | student-distrib/inc/klibs/palloc.h:342-353 | the top of the free stack if its bit is set; an entry whose bit is clear is dropped |
| Heap.PhysPageManager.FreePage | student-distrib/inc/klibs/palloc.h:365-379 | a page that is free already is left alone, else it is free and on top |
| Heap.ShrinkUndoesGrow | student-distrib/proc/tasks.cpp:55-78 | a page taken and given back leaves everything as it was |
| Heap.GrowUndoesShrink | student-distrib/proc/tasks.cpp:55-78 | a page given back and taken again, too |
| Heap.LoadShowsHeap | student-distrib/proc/tasks.cpp:79-79 | after loading, the CPU shows each heap page where sbrk will look for it, unless the process shares a page with the common map |
| Heap.OutcomeIsDecided | student-distrib/proc/tasks.cpp:55-65 | growing succeeds if and only if each page can be had in its turn, and leaves the heap in order also when it fails |
| Heap.FailedGrowKeepsOk | student-distrib/proc/tasks.cpp:57-64 | a page that could not be mapped, or a stale entry of the free stack, leaves the heap in order |
| Heap.HeapEntryBits | student-distrib/proc/tasks.cpp:57-64 | heap pages are present, writable, for user programs, and 4 MB |
| Arenas.Run | student-distrib/klibs/kmalloc.cpp:99-284 | in every state that requests and frees of live blocks reach, each block of each pool is free or live and never both, and each live block lies in one pool of its class |
| Arenas.AllocateKeepsOk | student-distrib/klibs/kmalloc.cpp:133-184 | a request that succeeds hands out a block nobody holds, in a pool of the class asked for; one that fails changes nothing |
| Arenas.RecycledPageIsEmpty | student-distrib/klibs/kmalloc.cpp:99-131 | a page is recycled only when it holds no live block, and if none is, every pool of the first four classes holds one |
| Arenas.LiveBlocksApart | student-distrib/klibs/kmalloc.cpp:13-25 | two live blocks do not overlap, and each has the size asked for |
| Arenas.LiveBlocksOutsideFields | student-distrib/klibs/kmalloc.cpp:59-74 | no live block overlaps the fields of any pool |
| Arenas.OnlyOwnerReleases | student-distrib/klibs/kmalloc.cpp:44-56 | exactly the pool whose page a live block is in accepts it |
| Arenas.OwnerIsUnique | student-distrib/klibs/kmalloc.cpp:34-42 | an address lies in the page of one pool at most |
| Arenas.FreeAccepts | student-distrib/klibs/kmalloc.cpp:242-254 | a free without size is accepted if and only if the address lies in a pool whose mark for it is clear, live or not |
| Arenas.RecyclingMiscounts | student-distrib/klibs/kmalloc.cpp:117-119 | totalNumPools counts the pools after a request if and only if no pool was recycled: recycling takes one off and does not put it back |
| Arenas.NextKeepsOk | student-distrib/klibs/kmalloc.cpp:99-284 | each request and each free of a live block keeps the invariant |
| Arenas.RequestIsServed | student-distrib/klibs/kmalloc.cpp:133-240 | in every state of a run a request of at most a megabyte is allowed, and served by a block nobody holds unless there is no room in the sense of AllocateFails |
| Arenas.FreedIsGone | student-distrib/klibs/kmalloc.cpp:242-284 | in every run a block given back, with its size or without, is held no more, and no other is affected |
| Pools.EmptyMeansNoLive | student-distrib/klibs/kmalloc.cpp:27-31 | a pool calls itself empty if and only if no block of its page is live |
| Pools.FreshIsOk | student-distrib/klibs/kmalloc.cpp:58-74 | in a new pool every block behind the header is free |
| Pools.GetKeepsOk | student-distrib/klibs/kmalloc.cpp:12-25 | get hands out an aligned block behind the header that was not live |
| Pools.ReleaseKeepsOk | student-distrib/klibs/kmalloc.cpp:44-56 | a live block goes back on top of the free stack, which has room for it |
| Pools.LiveIsReleased | student-distrib/klibs/kmalloc.cpp:44-56 | a pool accepts a live block exactly when it lies in its page |
| Pools.ElementsApart | student-distrib/klibs/kmalloc.cpp:33-42 | two blocks of a pool do not overlap each other, the fields or the end of the page |
| Pools.DoubleFreeIsHandedOutTwice | student-distrib/klibs/kmalloc.cpp:49-53 | the mark is cleared where setting it would be expected: a block handed out once can be freed twice, and the next two requests then get the same block |
| Pools.MarkStaysClear | student-distrib/klibs/kmalloc.cpp:49-53 | no operation sets a clear mark again |
| KMalloc.ObjectPool.MarkAll | student-distrib/klibs/kmalloc.cpp:64-73 | both loops: the blocks of the header stay occupied, all others are free |
| KMalloc.ObjectPool.Get | student-distrib/klibs/kmalloc.cpp:12-25 | none when no block is free, else the top of the free stack, whose mark is cleared |
| KMalloc.ObjectPool.Release | student-distrib/klibs/kmalloc.cpp:44-56 | accepted exactly inside the page with a clear mark, and then on top of the free stack |
| KMalloc.SearchFree | student-distrib/klibs/kmalloc.cpp:137-141 | the first pool that has a free block gives it, and no other changes |
| KMalloc.SearchEmpty | student-distrib/klibs/kmalloc.cpp:103-114 | the first pool without live blocks |
| KMalloc.SearchOwner | student-distrib/klibs/kmalloc.cpp:186-192 | the first pool that accepts the block takes it, and no other changes |
| KMalloc.VirtualMemRegion.AllocPage | student-distrib/inc/klibs/palloc.h:421-432 | a page that was not in use, or none left |
| KMalloc.VirtualMemRegion.FreePage | student-distrib/inc/klibs/palloc.h:434-446 | the index is not taken relative to the region, so no page of the region is ever given back |
| KMalloc.MapPage | student-distrib/klibs/kmalloc.cpp:164-177 | a page of the region with its mapping; a refused mapping costs the page of the region |
| KMalloc.AcquirePage | student-distrib/klibs/kmalloc.cpp:162-180 | it succeeds if and only if memory and region have a page and both maps have room for it; a failure leaves the free pages of memory and both page maps as they were; the page of the region is lost exactly when the mapping was refused |
| KMalloc.AllocateKeepsPages | student-distrib/klibs/kmalloc.cpp:133-184 | every pool lies in a page that the region has given out |
| KMalloc.KMemory.ParaFindAndReleaseFreePool | student-distrib/klibs/kmalloc.cpp:99-123 | the first empty pool of a class leaves its slot |
| KMalloc.KMemory.FindAndReleaseFreePool | student-distrib/klibs/kmalloc.cpp:125-131 | the first empty pool of the first four classes |
| KMalloc.KMemory.ParaAllocate | student-distrib/klibs/kmalloc.cpp:133-184 | a free block of the slot, or of a recycled page, or of a new page that no pool has, in that order; a failure changes no pool, no free page and no map |
| KMalloc.KMemory.ParaFree | student-distrib/klibs/kmalloc.cpp:186-209 | the first pool of the slot that accepts the block has it back, all others are as they were |
| KMalloc.KMemory.AllocImpl | student-distrib/klibs/kmalloc.cpp:213-240 | for every record of live blocks: a block nobody holds, or nothing changed; up to a megabyte it fails if and only if every block of its slot is live and either the slot is full, or no page can be recycled and no new one is to be had (Arenas.NoRoom); a failure leaves the free pages and the page maps as they were |
| KMalloc.KMemory.FreeImpl | student-distrib/klibs/kmalloc.cpp:242-254 | a live block is always accepted; otherwise the result says whether the exception is raised |
| KMalloc.KMemory.FreeImplSized | student-distrib/klibs/kmalloc.cpp:256-284 | a live block freed with the size it was asked for with is always accepted |
| KMalloc.KernelEntryBits | student-distrib/klibs/kmalloc.cpp:164-177 | a page of the allocator is present, writable, global, 4 MB, and not for user programs |
| KMalloc.KMemory.MakePool | student-distrib/klibs/kmalloc.cpp:142-184 | without a free block in the slot: a block of a recycled page, or of a new page that no pool has; a failure changes no pool, no free page and no map |
| KMalloc.MappableWhereVacant | student-distrib/klibs/kmalloc.cpp:164-177 | the mapping is refused exactly if the place of the region or the page itself is in use in the common or the active map |
| FsRoundTrip.EntriesAreParsed | student-distrib/fs/kissfs.cpp:159-175 | the reader finds every entry the writer made: name, type and inode number |
| FsRoundTrip.InodeIsParsed | student-distrib/fs/kissfs.cpp:176-186 | the reader finds the size and the block numbers of every file |
| FsRoundTrip.NameIsFound | student-distrib/fs/kissfs.cpp:24-33 | a short name opens its own entry |
| FsRoundTrip.FileIsWhole | student-distrib/fs/kissfs.cpp:225-261 | all blocks of every file are in range for the reader |
| FsRoundTrip.FileIsItself | student-distrib/fs/kissfs.cpp:263-270 | the bytes at the places the reader looks are the bytes of the file |
| FsRoundTrip.ByteIsInPlace | createfs.c:203-220 | byte k of a file is in the image where the writer put block k / 4096 |
| FsRoundTrip.WriteThenRead | createfs.c:64-222 | createfs on a listing with at most 32 acceptable files of different short names, then the kernel opening one of these names and reading on, with any chunk that divides the block size or is whole blocks: the result is exactly the original bytes; only when the random numbers run out is there no image |
| FsRoundTrip.ReadToEnd | student-distrib/fs/filesystem.cpp:39-45 | reading on until a read gives nothing ends, with exactly the bytes of the file |
| FsRoundTrip.NameFits | createfs.c:240-241 | a name opens its own entry exactly if it has at most 31 characters; the entry then has the whole name |
| FsRoundTrip.DotIsDirectory | student-distrib/fs/kissfs.cpp:24-52 | the name "." opens the directory |
| FsRoundTrip.ImageLayout | createfs.c:64-222 | where the counts, the entries and the inodes are in the image, byte by byte |
| KissSpec.ReadPastEnd | student-distrib/fs/kissfs.cpp:231-232 | past the end of the file the 32-bit difference wraps: a read gives nothing if and only if it asks for nothing or starts behind the last block |
| KissSpec.ChunksGiveWholeFile | student-distrib/fs/filesystem.cpp:39-45 | reading on with such a chunk gives the file in order, up to its end, and then nothing |
| KissSpec.AlignedRead | student-distrib/fs/kissfs.cpp:233-254 | from the start of a block the loop copies the file's bytes in order |
| KissSpec.PiecesAreRight | student-distrib/fs/kissfs.cpp:239-242 | and when that is the file |
| KissSpec.ChunkStaysInside | student-distrib/fs/filesystem.cpp:39-45 | a chunk that divides a block never straddles two |
| KissFs.KissFS.constructor | student-distrib/fs/kissfs.cpp:157-194 | the tables are those of the specification, and each name is indexed |
| KissFs.KissFS.Open | student-distrib/fs/kissfs.cpp:24-52 | the entry that the specification finds, a directory or a file |
| KissFs.KissFS.ReadBlock | student-distrib/fs/kissfs.cpp:263-270 | the bytes of the image at that place, or false when the block is out of range |
| KissFs.KissFS.ReadData | student-distrib/fs/kissfs.cpp:225-261 | the bytes of the specification, their number, and nothing behind them; -1 for a block out of range or an inode number behind the table |
| KissFs.OpenFile.Read | student-distrib/fs/filesystem.cpp:39-45 | the offset moves on by what was read, and stays on failure |
| KissFs.MakeIndex | student-distrib/fs/kissfs.cpp:190-193 | the table opens for each name the last entry with it |
| HashTable.LinearProbingHashTable.Find | student-distrib/inc/klibs/lphashtable.h:56-58 | the probing loop ends, at the key or at the first unset slot, whenever there is either |
| HashTable.LinearProbingHashTable.Get | student-distrib/inc/klibs/lphashtable.h:54-69 | the value bound to the key, or none when there is none |
| HashTable.LinearProbingHashTable.Put | student-distrib/inc/klibs/lphashtable.h:71-77 | exactly one binding is new, all others stay |
| HashTable.SearchIsExact | student-distrib/inc/klibs/lphashtable.h:56-68 | probing misses a key if and only if it is not stored |
| HashTable.PutKeepsOk | student-distrib/inc/klibs/lphashtable.h:71-77 | storing where the search ended keeps every key reachable and unique |
| HashTable.SearchEnds | student-distrib/inc/klibs/lphashtable.h:56-58 | probing ends if and only if some slot is unset or has the key |
| CreateFs.CreateImage | createfs.c:64-222 | the image of a listing: entries, inodes and blocks as IsImage says; without an image the random numbers have run out |
| CreateFs.FreeMap.Draw | createfs.c:360-369 | the first number that hits a free block gives it, marked taken; none only if every number left hits a taken one |
| CreateFs.FreeMap.GetInodeBlock | createfs.c:360-369 | an inode never drawn before |
| CreateFs.FreeMap.GetDataBlock | createfs.c:372-381 | a data block never drawn before |
| CreateFs.CreateDentry | createfs.c:225-244 | the reader of the entry gets the name cut to 31 characters and the type; other kinds of files are refused |
| CreateFs.ReadBlocks | createfs.c:247-286 | the blocks hold the file, with anything behind its end |
| CreateFs.InodeBlock | createfs.c:189-202 | size and block numbers read back as words |
| CreateFs.ImageWriter.AddFile | createfs.c:117-168 | the file is listed and counted, or skipped, and the entries before stay |
| CreateFs.ImageWriter.AddFiles | createfs.c:116-168 | exactly the acceptable files, 62 at most, in order |
| CreateFs.ImageWriter.PlaceInodes | createfs.c:172-177 | each file has an inode of its own, in its entry too |
| CreateFs.ImageWriter.PlaceAllBlocks | createfs.c:178-183 | each block of each file has a place of its own |
| CreateFs.ImageWriter.Place | createfs.c:169-183 | all places are different and in range, or the random numbers have run out |
| CreateFs.ImageWriter.Write | createfs.c:184-221 | every block is in the image where it was placed |
| CreateFs.FittingIsAccepted | createfs.c:116-168 | each regular file or character device of at most 1023 blocks is in the image if fewer than 62 such come before it, at its turn |
| CreateFs.AcceptedFits | createfs.c:116-168 | and nothing else is in the image |
| CreateFs.AcceptedCount | createfs.c:116-168 | as many as there are, 62 at most |
| Blocks.WriteBlockIsLocal | createfs.c:192-201 | writing a block leaves every other block as it was, and extends the file if it has to |
| LineEditor.ErasingReturnsToStart | student-distrib/drivers/terminal.cpp:81-107 | from any state of a line, erasing every item puts the cursor where the line started, less the lines scrolled away |
| LineEditor.BackspaceKeepsOk | student-distrib/drivers/terminal.cpp:81-107 | the row never underflows: there is a line above for each wrap still in the buffer |
| LineEditor.FewWraps | student-distrib/drivers/terminal.cpp:109-136 | 127 items fill at most seven lines |
| LineEditor.EditingKeepsOk | student-distrib/drivers/terminal.cpp:288-366 | characters, tabs and backspaces keep the cursor on the screen and the start of the line where it was |
| LineEditor.AdvanceKeepsOk | student-distrib/drivers/terminal.cpp:333-361 | a character or tab inside a line, at its end, and at the bottom of the screen |
| LineEditor.StepKeepsOk | student-distrib/drivers/terminal.cpp:51-366 | each key, print, read and clear keeps the editor in order |
| LineEditor.BufferIsText | student-distrib/drivers/terminal.cpp:81-136 | the buffer is the edited text |
| LineEditor.EnterEmptiesBuffer | student-distrib/drivers/terminal.cpp:213-231 | without the guard of the system call, Enter empties the buffer if and only if no reader waits with a null buffer |
| LineEditor.NullReadersOverflow | student-distrib/drivers/terminal.cpp:213-216 | and without that guard two reads with null buffers on a full line typed after boot push the index past the buffer |
| LineEditor.PrintStaysInside | student-distrib/drivers/terminal.cpp:138-178 | printing keeps the cursor on the screen |
| LineEditor.PrintAdvances | student-distrib/drivers/terminal.cpp:138-178 | printing moves the cursor on in reading order by exactly one place for a character, to the next multiple of four for a tab, to the next line for a newline, also where the screen scrolls |
| LineEditor.PressAllKeepsOk | student-distrib/drivers/terminal.cpp:81-136 | any keys keep the line in order, with its start where it was |
| LineEditor.ReadsWhatIsTyped | student-distrib/drivers/terminal.cpp:180-231 | a read gets the first bytes of the edited text at once if there are enough, and empties the buffer; else the reader waits and nothing else changes |
| LineEditor.KeysAdvance | student-distrib/drivers/terminal.cpp:109-136 | while there is room a typed character moves the cursor on by one place and a tab to the next multiple of four; a backspace takes either back |
| LineEditor.PlainTextInOrder | student-distrib/drivers/terminal.cpp:138-178 | text without control characters stands on paper in reading order, one place each |
| Terminal.Term.KeyChar | student-distrib/drivers/terminal.cpp:317-363 | a full buffer ignores the key; else the character is shown at the cursor, everything else stays or scrolls, the key is recorded, and the line stays in order |
| Terminal.Term.TabHandler | student-distrib/drivers/terminal.cpp:109-136 | a full buffer ignores the key; else the cursor is at the next tab stop or the next line, what is shown stays or scrolls, and the line stays in order |
| Terminal.Term.BackspaceHandler | student-distrib/drivers/terminal.cpp:81-107 | the last item is taken back, the cursor being where it was before it; blank is what lies between the two cursors and a line that is left, everything else stays |
| Terminal.Term.AdvanceTo | student-distrib/drivers/terminal.cpp:338-361 | the cursor moves and the key is recorded inside the buffer |
| Terminal.Term.NewLine | student-distrib/drivers/terminal.cpp:56-65 | down a line, or the screen scrolls; what is shown stays at its place in reading order |
| Terminal.Term.EnterHandler | student-distrib/drivers/terminal.cpp:51-79 | a waiting reader is woken with the first characters of the line in its buffer, or the error of a null buffer; what is shown stays, or scrolls by a line |
| Terminal.Term.HelpFinishRead | student-distrib/drivers/terminal.cpp:213-231 | the first characters copied and the buffer emptied; a null buffer is refused before that |
| Terminal.Term.ReadLine | student-distrib/drivers/terminal.cpp:180-211 | for every byte count, negative ones being compared as unsigned: others than the owner are refused; the owner gets what is there or blocks |
| Terminal.Term.Putc | student-distrib/drivers/terminal.cpp:138-178 | a printable character is shown at the cursor, everything else stays or scrolls; the buffer is empty and the cursor behind what was printed, still on the screen |
| Terminal.TextModePainter.ScrollDown | student-distrib/drivers/txtmode.cpp:55-86 | every line moves up and the last is blank |
| Terminal.Term.SysRead | student-distrib/syscalls/filesystem_wrapper.cpp:11-19 | the system call refuses a null buffer and then changes nothing, so no reader ever waits with one; else it is the step of the runs |
| CArray.MakeCArray | gui/cArrFile.py:18-30 | the printed form, or an error when a length does not fit 32 bits |
| CArray.GetInstance | student-distrib/klibs/arrFile.cpp:12-39 | null exactly when the format is violated; else each item with its length, null when empty |
| CArray.ArrFile.IndexCheck | student-distrib/klibs/arrFile.cpp:55-58 | the index check keeps every index inside if and only if there is an item |
| CArray.ArrFile.At | student-distrib/klibs/arrFile.cpp:55-58 | the item, or null behind the last |
| CArray.PrintedBytes | gui/cArrFile.py:18-30 | a file with a padding item and the item "ab", byte by byte |
| Rtc.RescaleSyncs | student-distrib/drivers/rtc.cpp:58-82 | the divider becomes hardware frequency over own frequency, exactly |
| Rtc.FasterKeepsPhase | student-distrib/drivers/rtc.cpp:66-70 | when the hardware gets faster the counter scales with the divider |
| Rtc.FrequencyConverter | student-distrib/drivers/rtc.cpp:263-283 | a rate exactly for the powers of two from 2 to 1024 |
| Rtc.ToldAreInSync | student-distrib/drivers/rtc.cpp:180-208 | telling the devices leaves the hardware at the highest frequency and every divider right |
| Rtc.RtcDriver.EnsureHardwareFrequency | student-distrib/drivers/rtc.cpp:180-208 | who is told what |
| Rtc.RtcDriver.Write | student-distrib/drivers/rtc.cpp:128-138 | refused exactly for other frequencies; else hardware and dividers are right again |
| Rtc.RtcDriver.Remove | student-distrib/drivers/rtc.cpp:210-221 | the loop ends, the list is turned and shorter by the device, and hardware and dividers are right again |
| Rtc.VirtualRTC.TriggerIfPossible | student-distrib/drivers/rtc.cpp:37-56 | each divider-th interrupt wakes the reader or adds to the backlog |
| Rtc.VirtualRTC.NewHardwareRTCFrequency | student-distrib/drivers/rtc.cpp:58-82 | divider and counter for the new frequency, as RescaleSyncs and FasterKeepsPhase explain |
| RingBuffer.RingBuf.Push | student-distrib/klibs/ringbuf.cpp:30-44 | the element is appended, and the oldest goes when the buffer is full |
| RingBuffer.RingBuf.PopFront | student-distrib/klibs/ringbuf.cpp:70-78 | the oldest element goes |
| RingBuffer.RingBuf.PopBack | student-distrib/klibs/ringbuf.cpp:109-117 | the newest element goes |

## Left out

- Inline assembly, port input and output, page directory reloads, interrupt
  entry, stack frames: a dispatch is one step.
- `dotask`, `fork` and `prepareSwitchTo`, which put threads into the queue twice
  or choose targets freely; the loader of `do_exec`.
- Kernel threads started after boot, the bound on the number of processes, and
  threads that wait for disk transfers.
- Clock devices in the scheduler's runs are reduced to ticks; their dividers are
  in Rtc.
- Sched.Kernel.SysExec: whether the name can be executed is a parameter; running
  out of process numbers or of pages in the middle of `do_exec`, whose code 256
  its caller takes for a process number, is not modelled.
- Sched.Kernel.TermRead: whether the buffered text is enough is a parameter, as
  the text itself is modelled in Terminal.
- Heap.ProcessDesc.Sbrk: sizes and addresses past the top of the address space
  are excluded, as the 32-bit sums would wrap; the stack of free pages is not
  bounded, as it holds each page number once.
- MemMaps.MemMapManager.LoadProcessMap: the video mapping of the process's
  terminal is not modelled.
- The destructor of a process closes its files and frees its code page; only the
  heap part is modelled. FileDescArr would add only easy members.
- KMalloc.KMemory.AllocImpl: allocConsPage and pages taken by others from the
  same region are not modelled.
- HashTable.LinearProbingHashTable.Find: a full table without the key, in which
  the loop would not end (HashTable.SearchEnds), is excluded; 64 entries in 133
  slots never fill it.
- KissFs.KissFS.ReadData: an inode number equal to the number of inodes passes
  the check of the code and reads behind the array; that read is not modelled.
- KissFs.OpenFile.Read: nor is it here.
- KissFs.KissFS.constructor: the mapping of the image into the kernel's address
  space is not modelled; inodes with more than 1023 blocks, which only a damaged
  image has, are parsed without a bound.
- CreateFs.FreeMap.Draw: rand() is a finite list of numbers; when it runs out the
  search gives up, where the program would go on drawing.
- CreateFs.CreateImage: when the numbers run out there is no image; listing the
  directory, reading the files and writing the output file are parameters; a
  file read short is not modelled.
- readdir, fstat, lseek, the mount points and the device file system.
- Terminal.Term.KeyChar: the shift and caps-lock tables are not modelled; the
  character is a parameter.
- Terminal.TextModePainter.ShowChar: only the characters of the cells are
  modelled, not the attribute bytes; hiding and showing terminals is left out.
- Rtc.VirtualRTC.constructor: the default frequency is not modelled, as the
  constructor passes one byte where four are read; a device counts from its
  first successful write.
- CArray.ArrFile.At: an empty file is excluded, on which the wrapped check lets
  every index through and the code reads behind its array.
- CArray.GetInstance: reading behind the end of a short buffer gives zeros; copy
  construction and assignment of ArrFile are left out.
- RingBuffer.RingBuf.Push: an element is one value; the copying of its bytes is
  not modelled.
- Mutation of strings, the prefix tree, drawing, sound, mouse, PCI and VBE.
