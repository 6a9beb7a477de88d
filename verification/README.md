# MxOS: a verified model of the kernel's core

MxOS is a small i386 kernel. This project models, in Dafny, the parts of it that carry
long-lived state or transform programs, and proves what they guarantee:

- **File system** (`drivers/fs.c`): a flat directory and a first-fit sector allocator, in memory and
  mirrored on disk. It refines a map from names to zero-padded contents over every run, reboots included.
- **ELF loader** (`kernel/elf.c`): loading at base B a program linked at L gives what linking at B
  would have given.
- **Heap** (`kernel/mem.c`): block headers kept in the managed memory always tile the arena, and no
  header write reaches a live payload.
- **Scheduler, IPC, task lifecycle** (`kernel/sched.c`, `kernel/paging.c`): a state machine over kernel
  calls and ticks; ownership of stacks and page directories, context integrity, sleep safety,
  bounded waiting, FIFO mailboxes.
- **exec** (`kernel/exec.c`, `kernel/shell.c`): slot exclusivity and window privacy across task
  lifetimes, with heap headers, start frames, stacks and programs in one memory, and arguments from the
  command line to the first instruction of the program.
- **History and keyboard** (`kernel/shell.c`, `kernel/keyboard.c`): a command ring that survives
  reboots, and an interrupt-safe key queue.

Each component has `*Model` modules (state, operations, reference definitions), modules of theorems,
and a `*Driver` module holding the imperative code: classes and methods with the source's loops,
proved equal to the model's functions. What each operation does is stated from outside: when it succeeds
(both directions), what exactly changes, that nothing else does (`SchedCalls`, `HeapModel.MallocExact`,
`ExecLaunch.ExecExact`, `FsRuns.LoadExact`), from the bytes of the file alone (`ElfFile`) or from the keys
alone (`HistoryEditor`). Theorems about runs quantify over every sequence of operations. `dafny verify dfyconfig.toml` checks the whole project.

Where a property one would expect is false of the code, the code is kept, a lemma says exactly when
it holds, and a lemma shows an input on which it fails:

- a stored name is unique, unless a name over 23 bytes is cut to one already taken
  (`FsRuns.LongNameUnique`, `FsRuns.TwoEqualNames`);
- a failed write changes nothing, unless it was an overwrite (`FsRuns.FailedWriteKeepsMap`,
  `FsRuns.OversizeOverwriteLoses`);
- the bitmap stays exact, unless the root directory cannot be saved (`FsRuns.RootFailureBreaksAllocation`,
  `FsRuns.BadRootSector`), the bitmap sector is unreadable at boot (`FsInvariant.RebootWithoutBitmap`,
  `FsRuns.BadBitmapSector`), or `fs_create_file` lists something (`FsRuns.CreateFileBreaks`,
  `FsRuns.CreateFileOnFormatted`);
- the history survives a reboot, unless the disk had no room for it (`HistoryDisk.HistorySurvivesReboot`,
  `HistoryDisk.FullDiskLosesHistory`);
- relocation preserves meaning, unless a relocation refers to an absolute symbol and the program moves
  (`ElfTheorem.LoadIsLink`, `ElfWitness.AbsoluteWordWrong`) or a word is listed several times
  (`ElfTheorem.ListedTimes`, `ElfWitness.TwiceListedWrong`);
- freeing everything restores the arena, unless a free block precedes another or the order is not last in,
  first out (`HeapStack.AnyOrderExact`, `HeapStack.FifoFragments`);
- a received message changes nobody else's memory, unless a pointer given to `ipc_recv` meets a heap header
  or another program's window (`ExecReceive.ReceiveExact`, `ExecReceive.OtherProgramOverwritten`);
- other tasks' stacks are closed to ring 3, unless the exec stacks are not page-aligned or share a page with
  the kernel image (`ExecSafety.StackPrivacy`, `ExecSafety.NeighbourStackOpen`);
- a sleeper is not elected early, unless no ready task has priority >= 0 (`SchedElection.ElectsAwake`,
  `SchedTiming.SleeperElected`);
- sizes and waits are exact, unless 32-bit arithmetic wraps (`FsRefinement.SectorCountExact`;
  `HeapModel.MallocRoom`, `HeapModel.RoundingWraps`; `SchedElection.SleepLength`, `SchedElection.SleepWraps`).

Three comments of the source disagree with its code, and the model follows the code: the table of
`drivers/fs.c:337-341` has 32 entries, not 15; the Shell's priority is 0 (`kernel/sched.c:347`), not
the 1 given as an example at `kernel/sched.c:26`; and `kernel/paging.c:89-90` promises private stacks,
which 16-byte alignment (`kernel/exec.c:31`) does not give.

Sector I/O fails on a persistent set of bad sectors (`Disk.bad`), so every error path of the file
system is modelled; the refinement theorems are for a disk whose file-system sectors work. 32-bit
wrap-around is explicit (`Bytes.Wrap`).

## Model

| member | source | states |
|---|---|---|
| FsInvariant.DecodeEncodeRoot | drivers/fs.h:6-40 | the packed 1056-byte layout of the root directory loses nothing: decoding an encoded directory gives it back |
| FsInvariant.RootLayout | drivers/fs.h:6-40 | the byte offset of every field of the root directory: magic, each entry's name, start and size, the obsolete pointer, the reserve |
| FsInvariant.SaveRootEffect | drivers/fs.c:53-64 | when the three root sectors work, a root save succeeds, writes exactly them (the last one zero-padded) and no other sector |
| FsInvariant.RebootRestores | drivers/fs.c:38-64 | `fs_init` on the disk of any reachable state rebuilds that very state, directory and bitmap |
| FsInvariant.FormatInv | drivers/fs.c:105-119 | on a disk without the magic number, `fs_init` formats it into an empty file system satisfying the invariant |
| FsInvariant.RebootWithoutBitmap | drivers/fs.c:116-118 | with an unreadable bitmap sector a reboot keeps the directory and the allocation invariant survives if and only if no file is listed |
| FsInvariant.RemoveKeepsAlloc | drivers/fs.c:284-289 | releasing a listed extent and clearing its entry keeps the bitmap equal to the union of disjoint listed extents |
| FsInvariant.AddKeepsAlloc | drivers/fs.c:371-372 | marking a free run and listing it under a new name keeps bitmap exactness, disjointness, bounds and unique names |
| FsInvariant.UnmarkRestores | drivers/fs.c:371-374 | marking a free run and unmarking it gives back the same bitmap |
| FsInvariant.UnmarkedBreaksAlloc | drivers/fs.c:256-264 | listing one more extent without marking it always breaks the allocation invariant, whether its sectors were free, taken or out of range |
| FsModel.Find | drivers/fs.c:172-180 | lookup returns the first entry with that name and a valid name field, or the table size |
| FsModel.FreeSlot | drivers/fs.c:235-236 | the first entry whose name is empty, or the table size |
| FsModel.LowestRun | drivers/fs.c:78-94 | a free run of the wanted length, and no lower start has one |
| FsRefinement.RepresentsUnique | drivers/fs.c:172-230 | a state represents at most one map from names to contents |
| FsRefinement.LookupRefines | drivers/fs.c:172-180 | `fs_file_exists` answers membership in the represented map, and finds the entry holding the mapped bytes |
| FsRefinement.LoadRefines | drivers/fs.c:187-230 | `fs_load_file` returns exactly the mapped bytes; it fails exactly when the name is absent or the file exceeds the buffer |
| FsRefinement.DeleteRefines | drivers/fs.c:278-305 | deletion removes exactly that name from the map, reports whether it was there, and keeps the invariant |
| FsRefinement.StoredNameReads | drivers/fs.c:237-241 | the stored name reads back as the first 23 bytes of the given one, whatever the slot held before |
| FsRefinement.SectorCountExact | drivers/fs.c:346 | the sector count is exact if and only if size + 511 does not wrap; otherwise it is 0 |
| FsRefinement.WriteDataEffect | drivers/fs.c:353-369 | the write loop leaves in consecutive sectors the data cut in 512-byte pieces, zero-padded, and touches no other sector |
| FsRefinement.RollbackRefines | drivers/fs.c:372-375 | undoing an allocation restores the bitmap and directory and leaves every file's bytes unchanged |
| FsRefinement.PlaceRefines | drivers/fs.c:346-378 | for an absent name: success exactly when a free run and a directory slot exist; then exactly that name is set to the padded data, else the map is unchanged |
| FsRefinement.WriteRefines | drivers/fs.c:327-378 | a write keeps the invariant, sets exactly that name to the zero-padded data on success, and succeeds exactly when, without the old version, a run and a slot exist |
| FsRefinement.SlotIffRoom | drivers/fs.c:235-253 | a directory slot is free exactly when the map has fewer than 32 names |
| FsRuns.StepRefines | drivers/fs.c:278-378 | every write, deletion or reboot is a step of the abstract map and keeps the invariant |
| FsRuns.RunRefines | drivers/fs.c:278-378 | the same over every sequence of operations from any good state |
| FsRuns.FormattedRunRefines | drivers/fs.c:105-378 | from a formatted disk, every run ends in a state satisfying the allocation and mirror invariants and representing the map run |
| FsRuns.RebootTransparent | drivers/fs.c:105-119 | after any run a reboot changes nothing: each load afterwards returns what the map says |
| FsRuns.PlaceWhere | drivers/fs.c:347-372 | a successful write of any name and size uses the first free slot and the lowest free run |
| FsRuns.LongNameUnique | drivers/fs.c:237-241 | a write of a name over 23 bytes keeps names unique if and only if no file has the truncated name |
| FsRuns.TwoEqualNames | drivers/fs.c:237-241 | on a formatted disk, a 23-byte name and then any 24-byte name starting with it give two files of one name |
| FsRuns.FailedWriteKeepsMap | drivers/fs.c:342-351 | a failed write leaves the map unchanged if and only if the name had no previous version |
| FsRuns.OversizeOverwriteLoses | drivers/fs.c:342-351 | overwriting with more than 511 sectors always fails and always loses the old version |
| FsRuns.FullDirectoryRollsBack | drivers/fs.c:371-375 | with a full directory a write of a new name fails and leaves bitmap, directory and map as they were |
| FsRuns.DiskFull | drivers/fs.c:78-94 | a file of 511 sectors on a formatted disk leaves no free run of any length |
| FsRuns.RootFailureBreaksAllocation | drivers/fs.c:245-248 | on a disk with bad sectors, placing a file keeps the allocation invariant if and only if the root sectors work |
| FsRuns.BadRootSector | drivers/fs.c:245-248 | with only the first root sector bad, the first file written stays listed on unmarked sectors |
| FsRuns.BadBitmapSector | drivers/fs.c:116-118 | with only the bitmap sector bad, the first file written on a formatted disk is listed on sectors the next boot takes for free |
| FsRuns.CreateFileBreaks | drivers/fs.c:256-264 | `fs_create_file` keeps the allocation invariant if and only if its arguments are rejected or the directory is full |
| FsRuns.CreateFileOnFormatted | drivers/fs.c:256-264 | on a formatted disk, creating a file over one free sector breaks the invariant |
| FsRuns.Refused | drivers/fs.c:257-332 | empty names, empty data and empty extents are refused without any effect |
| FsRuns.WriteDataExact | drivers/fs.c:357-369 | on any disk the data loop succeeds if and only if every sector it needs works |
| FsRuns.DataFailure | drivers/fs.c:362-365 | a failing data sector makes the write fail and leaves directory and bitmap as they were |
| FsRuns.DeleteOnAnyDisk | drivers/fs.c:284-296 | on any disk the entry and exactly its bits are cleared in memory, and the result tells whether the root sectors work |
| FsRuns.LoadExact | drivers/fs.c:187-230 | on any disk a load succeeds if and only if the file is listed, plausible, not over the limit and readable throughout, and returns the sectors of its extent in order |
| FsRuns.UnreadableFormats | drivers/fs.c:105-115 | an unreadable root directory is taken for an unformatted disk |
| FsRuns.OtherFieldsKept | drivers/fs.c:234-378 | writes and deletions change nothing of the root directory but its entries |
| FsDriver.FillSector | drivers/fs.c:359-361 | the buffer loop: the chunk, then zeros |
| FsDriver.CopyName | drivers/fs.c:237-241 | the name loop copies at most 23 bytes, stops after the NUL and always terminates the field |
| FsDriver.ValidNameField | drivers/fs.c:10-15 | the loop accepts exactly the fields with a NUL that is not the first byte |
| FsDriver.SameName | drivers/fs.c:5-15 | the two loops of a lookup decide equality of C strings for valid fields |
| FsDriver.FileSystem.constructor | drivers/fs.c:105-119 | boot adopts the directory on disk or formats it |
| FsDriver.FileSystem.RootLoad | drivers/fs.c:38-49 | succeeds exactly when the three sectors are readable, and then decodes them |
| FsDriver.FileSystem.RootSave | drivers/fs.c:53-64 | sector-by-sector save, stopping at the first failure |
| FsDriver.FileSystem.BitmapPersist | drivers/fs.c:72-74 | writes the bitmap to its sector, nothing else |
| FsDriver.FileSystem.BitmapFindFreeRun | drivers/fs.c:78-94 | the one-pass `run_start`/`run_len` scan finds the lowest free run of any length asked for, 0 included |
| FsDriver.FileSystem.BitmapMark | drivers/fs.c:96-103 | marks exactly the run, clipped to the bitmap, and persists it |
| FsDriver.FileSystem.FileExists | drivers/fs.c:172-180 | true exactly when the name is listed |
| FsDriver.FileSystem.LoadFile | drivers/fs.c:187-230 | every check of the source in order, then the bytes of the extent |
| FsDriver.FileSystem.ReadExtent | drivers/fs.c:209-223 | the sector loop returns the extent's bytes, or nothing if a sector fails |
| FsDriver.FileSystem.AddEntryTo | drivers/fs.c:234-254 | first free slot filled and the directory saved; reports a full directory and a failed save |
| FsDriver.FileSystem.CreateFileAt | drivers/fs.c:256-264 | the rejections, then the entry added without touching the bitmap |
| FsDriver.FileSystem.DeleteFile | drivers/fs.c:278-305 | the in-place deletion is the model's |
| FsDriver.FileSystem.WriteFile | drivers/fs.c:327-378 | the in-place write is the model's, old version removed first |
| FsDriver.FileSystem.PlaceFile | drivers/fs.c:346-378 | allocation, data, marking, entry, and the rollback |
| FsDriver.FileSystem.WriteSectors | drivers/fs.c:353-369 | the data loop, stopping at the first failing sector |
| HeapModel.FirstFit | kernel/mem.c:22-40 | the first free block with enough room, or none |
| HeapModel.TakeTiles | kernel/mem.c:25-37 | taking a block, split or whole, keeps the blocks tiling the arena |
| HeapModel.ReleaseTiles | kernel/mem.c:44-54 | releasing with forward coalescing keeps the tiling |
| HeapModel.MallocLive | kernel/mem.c:18-42 | the live payloads gain exactly the returned one, inside the arena; a failure changes nothing |
| HeapModel.MallocExact | kernel/mem.c:18-42 | `kmalloc` succeeds if and only if some free block holds the rounded request; it takes the lowest, whole or cut to size with a free rest, and changes no other block |
| HeapModel.Round4Least | kernel/mem.c:21 | the rounded size is the least multiple of 4 that holds the request |
| HeapModel.FreeLive | kernel/mem.c:44-58 | freeing a live payload removes exactly it |
| HeapModel.MallocRoom | kernel/mem.c:21 | the returned block holds the requested bytes if and only if the size is at most 2^32 - 4 |
| HeapModel.RoundingWraps | kernel/mem.c:21 | asked for 2^32 - 3 bytes, a fresh heap hands out a block of 0 bytes |
| HeapModel.MallocAligned | kernel/mem.c:21-37 | in an aligned arena every block, and every pointer handed out, is 4-byte aligned |
| HeapModel.Conservation | kernel/mem.c:61-77 | used + free + 12 per block equals the arena size |
| HeapModel.StatsMeaning | kernel/mem.c:61-77 | free blocks do not count as used nor used ones as free |
| HeapMemory.TakeRepresented | kernel/mem.c:25-37 | the header words written by an allocation are those of the new block list, all inside the block taken |
| HeapMemory.ReleaseRepresented | kernel/mem.c:44-54 | the header words written by a release are those of the new list, all inside that block's header |
| HeapMemory.AllocRepresented | kernel/mem.c:18-42 | after `kmalloc` the headers in memory are those of the new list, and nothing outside the arena changed |
| HeapMemory.FreeRepresented | kernel/mem.c:44-58 | the same for `kfree` |
| HeapMemory.StepSound | kernel/mem.c:18-58 | one allocation, release or client store keeps headers consistent and every owned byte as last stored |
| HeapMemory.StepFrame | kernel/mem.c:18-58 | no step touches memory outside the arena |
| HeapMemory.Run | kernel/mem.c:11-58 | every state reached by valid clients from a fresh heap is sound |
| HeapMemory.RunSound | kernel/mem.c:11-77 | in every run: tiling, headers in memory matching the list, owned bytes intact, conservation, alignment, nothing outside touched |
| HeapMemory.LivePayloads | kernel/mem.c:11-58 | in every run blocks are in bounds, pairwise disjoint with their headers, and payloads aligned |
| HeapStack.PushNested | kernel/mem.c:18-42 | an allocation after a nested run takes the end of the arena |
| HeapStack.PopNested | kernel/mem.c:44-58 | releasing the latest allocation merges it with the free tail |
| HeapStack.StackDiscipline | kernel/mem.c:18-58 | any last-in first-out run leaves at most one free block, the last; with nothing live, exactly the initial block |
| HeapStack.OrderExact | kernel/mem.c:44-58 | from any nested state, releasing the live blocks in some order restores the initial block if and only if the order is decreasing in address |
| HeapStack.AnyOrderExact | kernel/mem.c:44-58 | from any state, releasing everything restores the initial block if and only if no free block precedes another block and the order is decreasing in address |
| HeapStack.FifoFragments | kernel/mem.c:50-57 | two blocks released in allocation order leave two adjacent free blocks, in any arena large enough |
| HeapDriver.KernelHeap.constructor | kernel/mem.c:9 | before `heap_init` there is no heap |
| HeapDriver.KernelHeap.Init | kernel/mem.c:11-16 | one free block covering the arena; the memory is the old one with exactly that header stored |
| HeapDriver.KernelHeap.Kmalloc | kernel/mem.c:18-42 | the pointer walk over headers in memory is first-fit allocation, byte for byte; no owned byte and nothing outside the arena changes |
| HeapDriver.KernelHeap.Claim | kernel/mem.c:25-37 | the split decision in 32-bit arithmetic and the header words stored are those of the allocation step |
| HeapDriver.KernelHeap.Absorb | kernel/mem.c:48-54 | the flag alone, or the header of the merged block, is stored |
| HeapDriver.KernelHeap.Kfree | kernel/mem.c:44-58 | NULL does nothing; a live pointer is released, byte for byte, changing only its own header |
| HeapDriver.KernelHeap.Stats | kernel/mem.c:61-77 | the sums over the list are the used and free bytes, conservation included; zeros before `heap_init` |
| Mailbox.ResetEmpty | kernel/sched.c:198-205 | a reset ring is valid and empty |
| Mailbox.PutAppends | kernel/sched.c:444-453 | storing in the ring appends (sender, first 128 bytes) to the FIFO, whatever the head |
| Mailbox.TakeRemoves | kernel/sched.c:465-475 | taking from the ring removes the oldest message and keeps the others in order |
| SchedModel.FirstActive | kernel/sched.c:53-60 | the lowest active slot, or none |
| SchedModel.FreeTask | kernel/sched.c:210-214 | the lowest inactive slot, or none |
| SchedModel.FreeSpace | kernel/paging.c:103-114 | the lowest unused page directory, or none |
| SchedOwnership.BootInv | kernel/sched.c:334-357 | the ownership invariant holds at boot |
| SchedOwnership.TerminateKeeps | kernel/sched.c:102-115 | ending an active task gives back exactly its stack and its directory and keeps the counter exact |
| SchedOwnership.CreateKeeps | kernel/sched.c:207-241 | creating a kernel task keeps ownership; a failure changes nothing |
| SchedOwnership.CreateUserKeeps | kernel/sched.c:271-331 | creating a user task keeps ownership; a failure at any point leaks neither stack, directory, slot nor count |
| SchedOwnership.CounterMeansSlot | kernel/sched.c:208-214 | the task-count test and the slot search always agree |
| SchedOwnership.StepKeeps | kernel/sched.c:65-477 | every kernel call and tick keeps the ownership invariant |
| SchedCalls.BootExact | kernel/sched.c:334-357 | at boot only the Shell is active, all are awake with priority 0 and empty mailboxes, and nothing is in use |
| SchedCalls.ScheduleExact | kernel/sched.c:65-96 | a reschedule saves the ESP given, wakes exactly the due sleepers, elects the nearest ready task of highest priority or else the lowest active one, and halts if and only if no task is active |
| SchedCalls.KillExact | kernel/sched.c:408-425 | `task_kill` succeeds if and only if the target is active and not the caller; then exactly that task, its stack, its directory and its messages are gone; otherwise nothing changes |
| SchedCalls.ExitExact | kernel/sched.c:102-115 | an exit removes exactly the caller, its stack and its directory |
| SchedCalls.ExitRescheduleExact | kernel/sched.c:130-151 | the system halts if and only if nobody else is active; otherwise the exit is followed by a reschedule |
| SchedCalls.SleepExact | kernel/sched.c:156-162 | exactly the caller falls asleep, until the current tick plus the ticks asked for |
| SchedCalls.CreateExact | kernel/sched.c:207-241 | `create_task` succeeds if and only if a slot is inactive and a free block holds 4096 bytes; the new task takes the lowest slot, awake, priority 0, no messages, a new stack; nothing else changes |
| SchedCalls.CreateUserExact | kernel/sched.c:271-331 | the same with an unused directory as third condition, which gets a table opened to the two windows |
| SchedCalls.PriorityExact | kernel/sched.c:430-433 | an active target, and only it, gets exactly the level given |
| SchedCalls.SendExact | kernel/sched.c:439-455 | a send succeeds if and only if the target is active with fewer than four messages; it appends the sender's pid with the first 128 bytes, and changes nothing else |
| SchedCalls.ReceiveExact | kernel/sched.c:461-477 | a receive removes and delivers exactly the caller's oldest message, or does nothing |
| SchedElection.ScanSpec | kernel/sched.c:31-51 | the scan's winner so far is ready, of highest priority, and the nearest such after the current task |
| SchedElection.FirstPass | kernel/sched.c:31-51 | pass 1 elects nobody exactly when no ready task has priority >= 0; otherwise the nearest ready task of highest priority |
| SchedElection.ElectsAwake | kernel/sched.c:53-60 | the elected task is awake if and only if a contender exists or the lowest active task is awake |
| SchedElection.ElectsActive | kernel/sched.c:31-63 | the elected task is active, and none is elected exactly when none is active |
| SchedElection.TurnApproaches | kernel/sched.c:31-51 | electing another task strictly shortens the cyclic distance to a task nobody outranks |
| SchedElection.SleepLength | kernel/sched.c:157-159 | the wait is the requested one if and only if ms * freq fits 32 bits |
| SchedElection.SleepWraps | kernel/sched.c:157-159 | a sleep of 42949673 ms lasts one tick instead of 4294967 |
| SchedRuns.ResumesSaved | kernel/sched.c:65-96 | a reschedule resumes a task with the stack pointer logged at its last suspension |
| SchedRuns.StepAgrees | kernel/sched.c:65-477 | every step keeps the state in agreement with the observer's log of contexts and messages |
| SchedRuns.RunOk | kernel/sched.c:65-477 | ownership and agreement with the log hold after every run from boot |
| SchedRuns.RunOwnership | kernel/sched.c:102-143 | in every run: exact task counter; live heap blocks are exactly the stacks, and used directories exactly the spaces, of active tasks, one owner each |
| SchedRuns.ContextIntegrity | kernel/sched.c:65-96 | after any run, a resumed task is active, in its own address space, and gets the ESP of its latest suspension or its initial frame |
| SchedRuns.MailboxFifo | kernel/sched.c:439-477 | in every run the messages a task received are, in order, a prefix of those accepted for it since creation, at most four pending |
| SchedRuns.SendFrame | kernel/sched.c:439-455 | a send changes no other task; it is refused exactly for an inactive target or a full mailbox, and then changes nothing |
| SchedTiming.StepDeadlines | kernel/sched.c:156-181 | no step forgets a sleeper's deadline before it is due |
| SchedTiming.CalmDeadlines | kernel/sched.c:35-60 | the same over every run with the Shell ready and ticks not wrapping |
| SchedTiming.SleepSafety | kernel/sched.c:31-63 | in such runs every elected task is the winner of pass 1, awake and past its deadline: the fallback is never taken |
| SchedTiming.DeadlineAsked | kernel/sched.c:157-162 | without wrap-around the logged deadline is the tick of the call plus the ticks asked for, at least one |
| SchedTiming.SleeperElected | kernel/sched.c:53-60 | from boot, a Shell that sleeps one second while alone is elected again at the next tick, asleep |
| SchedTiming.WaitShrinks | kernel/sched.c:31-96 | until a top task is elected, its distance drops by at least one per reschedule |
| SchedTiming.BoundedWaiting | kernel/sched.c:31-96 | a task that stays ready, of priority >= 0 and not outranked is elected within 16 reschedules, whatever the others do |
| SchedStacks.RunRoomy | kernel/sched.c:216-220 | in every run each used heap block can hold a kernel stack |
| SchedStacks.StacksDisjoint | kernel/sched.c:216-220 | in every run the 4096-byte kernel stacks of active tasks lie in the arena and do not overlap |
| SchedStacks.TickWakesDue | kernel/sched.c:39-45 | a tick wakes a sleeper if and only if its deadline is reached |
| SchedMemory.StackMemBacked | kernel/sched.c:216-232 | the stack allocation and the start frame write only in the arena and keep every heap header consistent |
| SchedMemory.CallBacked | kernel/sched.c:65-477 | every kernel call that spares the heap headers keeps them those of the scheduler's blocks; every call but a receive writes only in the arena |
| SchedMemory.HeaderBytes | kernel/mem.c:3-7 | memory holds the same heap if and only if no byte of a header changed |
| SchedMemory.MessageStored | kernel/sched.c:465-476 | after a receive the bytes at `out` are the oldest message, the word at `out_len` its length, the word at `out_sender` its sender; it is the message logged as delivered; no other byte changes |
| SchedMemory.KernelTaskStarts | kernel/sched.c:219-232 | a created kernel task, resumed, runs at its entry point in ring 0 and returns to `task_exit` |
| SchedMemory.UserTaskStarts | kernel/sched.c:292-322 | a created user task, resumed, runs at its entry point in ring 3 on its stack with the two registers given |
| SchedMemory.OwnStackStore | kernel/sched.c:65-70 | stores of a task in its own kernel stack disturb no header |
| SchedDriver.Scheduler.constructor | kernel/sched.c:334-357 | `heap_init` and the loop over the 16 zeroed slots, mailboxes reset one by one, yield the boot state |
| SchedDriver.Scheduler.ScanTasks | kernel/sched.c:31-51 | the scan that wakes while it searches equals waking everybody first and then electing |
| SchedDriver.Scheduler.FindNextTask | kernel/sched.c:31-63 | both passes, in place |
| SchedDriver.Scheduler.Reschedule | kernel/sched.c:65-96 | tick, save, elect, switch; halts when nobody is active |
| SchedDriver.Scheduler.EndTask | kernel/sched.c:408-422 | the clean-up shared by exit and kill, with the stack released in memory |
| SchedDriver.Scheduler.ExitAndReschedule | kernel/sched.c:130-151 | clean-up unless the caller is already inactive, halt when no task is left, else reschedule |
| SchedDriver.Scheduler.SleepAndReschedule | kernel/sched.c:172-181 | deadline set from the tick counter, then reschedule |
| SchedDriver.Scheduler.ClearMailbox | kernel/sched.c:198-205 | the reset loop on one task's ring only |
| SchedDriver.Scheduler.FillTable | kernel/paging.c:33-54 | the loop over 1024 entries gives the identity map with its user windows |
| SchedDriver.Scheduler.CreateDirectory | kernel/paging.c:101-115 | the lowest unused directory is taken and its table filled; none left gives -1 and no change |
| SchedDriver.Scheduler.FindFreeTask | kernel/sched.c:210-214 | the lowest inactive slot |
| SchedDriver.Scheduler.NewUserTask | kernel/sched.c:271-331 | stack, directory and start frame in the source's order, in memory, with the stack given back when no directory is left |
| SchedDriver.Scheduler.NewKernelTask | kernel/sched.c:207-241 | stack and start frame of a kernel task, in memory, failing without effect |
| SchedDriver.Scheduler.Kill | kernel/sched.c:408-425 | refuses invalid, inactive and current targets; otherwise ends the task and empties its mailbox |
| SchedDriver.Scheduler.IpcSend | kernel/sched.c:439-455 | -1, 0 or 1 exactly as documented, with the byte loop storing the first 128 bytes |
| SchedDriver.Scheduler.IpcReceive | kernel/sched.c:461-477 | the oldest message leaves the ring and is stored through the caller's pointers: its bytes, then length and sender where those pointers are not NULL |
| TaskFrame.UserStarts | kernel/sched.c:292-322 | popal and iret on the frame of a new user task give its entry point, its stack, EBX and ECX as passed, and zeros elsewhere |
| TaskFrame.KernelStarts | kernel/sched.c:219-232 | the same for a kernel task, whose return goes to `task_exit` |
| TaskFrame.BuildUserFrame | kernel/sched.c:292-322 | the thirteen pushes write that frame and leave ESP 52 bytes below the top |
| TaskFrame.BuildKernelFrame | kernel/sched.c:219-232 | the twelve pushes write that frame and leave ESP 48 bytes below the top |
| ElfModel.SitesInside | kernel/elf.c:125-133 | every word the relocation pass patches lies inside the window |
| ElfRelocation.SegmentsLoaded | kernel/elf.c:82-106 | the segment loop puts each segment's file bytes and zeros in place and touches nothing else, for segments in any order |
| ElfRelocation.LinkWord | kernel/elf.h:12-20 | linking gives each relocated word its psABI value, when sites are 4 bytes apart |
| ElfRelocation.PatchedWord | kernel/elf.c:125-134 | each listed word is shifted exactly once by B - L, modulo 2^32 |
| ElfRelocation.PatchedTimes | kernel/elf.c:125-134 | a word listed n times is shifted n times |
| ElfTheorem.Shifted | kernel/elf.c:127-133 | shifting S + A, and not shifting S + A - P, gives the value at B if and only if B == L or the symbol lies in the window |
| ElfTheorem.RelocatedWord | kernel/elf.c:108-136 | after the pass a relocated word, absolute or relative, has its value at B under exactly that condition |
| ElfTheorem.LoadIsLink | kernel/elf.c:80-138 | loading at B an image linked at L succeeds, yields the entry point of a link at B and touches only the segments; these hold the bytes of a link at B and zeroed bss if and only if B == L or no relocation names an absolute symbol |
| ElfTheorem.RelocationPreservesMeaning | kernel/elf.c:63-140 | the file linked at L and the file linked at B load identically at B, under exactly that condition |
| ElfTheorem.LoadedWords | kernel/elf.c:108-136 | in memory a relocated word is the psABI value at B if and only if B == L or its symbol lies in the window |
| ElfTheorem.LoadFrame | kernel/elf.c:57-61 | whether it succeeds or fails, `elf_load` writes nothing outside the window |
| ElfFile.AcceptedExact | kernel/elf.c:66-100 | from the bytes of the file: it is accepted if and only if its header is that of an i386 ELF32 file and every loadable segment fits the window and the file; the entry point is e_entry moved along |
| ElfFile.ListedWord | kernel/elf.c:115-136 | from the bytes of the file: a word is shifted once for every 8-byte entry of a type 9 section in the file whose r_info is 1 modulo 256 and whose r_offset is that word, whatever the symbol and section |
| ElfFile.LoadedByte | kernel/elf.c:88-106 | from the bytes of the file: a byte no entry lists is the byte of the last segment covering it, or zero past its file part |
| ElfFile.KeptByte | kernel/elf.c:88-136 | a byte of the window that no segment covers and no entry lists is left alone |
| ElfTheorem.ListedTimes | kernel/elf.c:125-134 | for any image that loads, a word listed n times gets the one shift it needs if and only if (n - 1)(B - L) is 0 modulo 2^32 |
| ElfWitness.Inhabited | kernel/elf.c:6-50 | a concrete 144-byte file, its relocation naming symbol 7, is a linked image in the sense of the theorems |
| ElfWitness.AbsoluteWordWrong | kernel/elf.c:125-134 | loading that file, whose word refers to the absolute symbol 5, leaves 5 there only at the link address |
| ElfWitness.TwiceListedWrong | kernel/elf.c:125-134 | loading the variant that lists its word twice leaves the word with one shift only at the link address |
| ElfDriver.ElfLoad | kernel/elf.c:63-140 | the loops in place compute the model's memory and entry point, all rejections included |
| ElfDriver.CopySegments | kernel/elf.c:88-106 | the header loop, stopping at the first segment that does not fit |
| ElfDriver.CopyBytes | kernel/elf.c:102-105 | the copy and zeroing loops |
| ElfDriver.ApplyRelocations | kernel/elf.c:115-136 | the nested loops patch the listed sites in file order |
| ElfDriver.ApplySection | kernel/elf.c:119-134 | the entries of one section, skipping other types and sites outside the window |
| ElfDriver.PatchWord | kernel/elf.c:132-133 | a word shifted in place |
| ArgvModel.OneWord | kernel/shell.c:238-246 | a space-free text is one word |
| ArgvModel.SpaceSeparates | kernel/shell.c:237-246 | the words of `a`, a space and `b` are those of `a` followed by those of `b`; with the previous law this determines the splitting |
| ArgvModel.WordsRoom | kernel/shell.c:236-246 | the words of a line, each with its NUL, need at most one byte more than the line |
| ArgvModel.BuildFrame | kernel/exec.c:88-110 | the builder writes only in the 512-byte area, truncated or not |
| ArgvModel.BuildLayout | kernel/exec.c:93-106 | when everything fits, argument k is readable through entry k, right after the earlier ones |
| ArgvModel.BuildNull | kernel/exec.c:98-107 | the table always ends with NULL, truncated or not |
| ArgvModel.BuildExact | kernel/exec.c:88-110 | for any list whose table fits: exactly the arguments before the first that does not fit are readable, one after the other, and all later entries are NULL |
| ArgvModel.EightWords | kernel/shell.c:238 | exactly the first eight words are passed |
| ArgvModel.ArgumentsDelivered | kernel/exec.c:88-110 | for a line of at most 255 bytes, the first 8 words arrive as disjoint NUL-terminated copies, NULL after them; truncation never happens |
| ArgvDriver.SplitArguments | kernel/shell.c:229-246 | the in-place splitter yields pointers to exactly the first eight words |
| ArgvDriver.CutWord | kernel/shell.c:238-246 | one turn terminates one word, finds the next, and writes one byte at most |
| ArgvDriver.BuildArguments | kernel/exec.c:88-110 | the loop with `used` and `str_area` is the model's builder, truncation branch included |
| ArgvDriver.ClearRest | kernel/exec.c:98-107 | the entries from i on set to NULL |
| ArgvDriver.CopyString | kernel/exec.c:102 | the byte loop, terminating NUL included |
| ExecModel.FindSlot | kernel/exec.c:67-74 | the lowest slot never used or whose recorded task is inactive |
| ExecSafety.SlotsExclusive | kernel/exec.c:38-41 | two live programs hold different slots |
| ExecSafety.FreeSlotUnused | kernel/exec.c:67-74 | a slot that looks free holds no live program, however stale or reused its recorded pid |
| ExecSafety.WindowPrivate | kernel/paging.c:33-54 | no page of a live program's window is user-accessible in another live program's table |
| ExecSafety.OwnPagesReachable | kernel/paging.c:33-54 | the pages of its own window and stack are user-accessible at their physical address |
| ExecSafety.StacksShare | kernel/exec.c:25-31 | two slots' stacks share a page if and only if the stacks are not page-aligned |
| ExecSafety.StackPrivacy | kernel/paging.c:86-91 | no stack page is open to another slot's program if and only if the stacks are page-aligned and share no page with the kernel image |
| ExecSafety.NeighbourStackOpen | kernel/exec.c:31 | with stacks at 0x30010, slot 0's program can write in the page that holds slot 1's stack and arguments |
| ExecSafety.StepKeepsSpace | kernel/paging.c:101-124 | no kernel call changes the directory or the table of a task that stays alive |
| ExecSafety.ExecMemory | kernel/exec.c:119-147 | above 0x300000, `exec_run` with its heap headers, start frame, arguments and image writes only in the window of the slot it chose, and the heap stays consistent |
| ExecSafety.ExecSafe | kernel/exec.c:112-155 | `exec_run`, successful or failing at any stage, keeps slots exclusive and every other window unchanged |
| ExecLaunch.ExecLoads | kernel/exec.c:135-138 | a file linked once at 0x300000 is, in the slot it lands in, what linking at that slot would give if and only if that is the first slot or no relocation names an absolute symbol |
| ExecLaunch.ExecExact | kernel/exec.c:112-155 | `exec_run` starts a program, whatever the arguments, if and only if a load slot is available, the file was read and is acceptable, and a task slot, a stack and a directory are available |
| ExecLaunch.ExecRecords | kernel/exec.c:140-154 | on success exactly the lowest available load slot records the new task and its windows are mapped; on failure no task, directory, stack or record changes |
| ExecLaunch.WindowCleared | kernel/exec.c:121-128 | what no segment fills in a started program's window is zero |
| ExecLaunch.ProgramStarts | kernel/exec.c:112-155 | right after a successful `exec_run`, resuming the new task at its saved ESP would give the loaded entry point, its own stack, EBX = number of words and ECX = a table through which each word is readable, NULL after them |
| ExecWaiting.WaitingKept | kernel/sched.c:65-96 | over any stretch of any run in which a task waits and is not aimed at: same saved ESP, same bytes in its kernel stack and, for a program, in its own stack |
| ExecWaiting.ProgramResumed | kernel/exec.c:140-153 | so whenever the program is first resumed, it finds the registers, stack and arguments `exec_run` prepared |
| ExecWaiting.AreaPrivate | kernel/paging.c:33-54 | with private stacks the page tables keep every other program from storing in a program's stack |
| ExecSafety.ReachedAddress | kernel/paging.c:33-54 | every address a ring 3 task's page table opens lies below the heap or in its own window |
| ExecSafety.StoreSafe | kernel/paging.c:33-54 | a store the page tables allow changes no heap header and no other program's window |
| ExecSafety.StepSafe | kernel/exec.c:112-155 | every kernel call, exec, store the page tables allow and store in a kernel stack keeps the isolation invariant |
| ExecSafety.ProgramsIsolated | kernel/exec.c:19-41 | in every run from boot, with heap headers, start frames, arguments, images, received messages and all stores the page tables allow in one memory: exclusive slots, each live window holds what was loaded plus what its own program stored or received, and the heap headers stay consistent |
| ExecReceive.UndisturbedBytes | kernel/sched.c:461-477 | heap and other windows are intact if and only if no header byte and no byte of another live window changed |
| ExecReceive.StoreExact | kernel/sched.c:467-470 | storing n bytes at a leaves them intact for every content if and only if [a, a+n) meets none of those bytes |
| ExecReceive.ReceiveExact | kernel/syscall.c:34-47 | the same for the three stores of a receive: every message of n bytes and all values of the two words |
| ExecReceive.OtherProgramOverwritten | kernel/syscall.c:34-47 | a run from boot with two live programs after which a receive by one changes the other's window |
| ExecDriver.Executor.constructor | kernel/exec.c:41 | no slot is used at boot |
| ExecDriver.Executor.FindFreeSlot | kernel/exec.c:67-74 | the search loop |
| ExecDriver.Executor.ClearWindow | kernel/exec.c:126-128 | the clearing loop zeroes exactly the window |
| ExecDriver.Executor.ExecRun | kernel/exec.c:112-155 | the composition of heap, scheduler, loader and builder on one memory, every failure path included |
| HistoryModel.PushRecent | kernel/shell.c:139-145 | a push appends to the remembered list and forgets all but the last eight, across ring wrap-around |
| HistoryModel.UpdateInv | kernel/shell.c:346-362 | any key keeps line, navigation and ring within bounds, commands free of NUL and newline |
| HistoryModel.TypingInv | kernel/shell.c:346-362 | the same for everything that can be typed |
| HistoryEditor.UpdateRefines | kernel/shell.c:346-362 | each key does to the shell's buffers and ring what it does to a reference editor over a plain list of the last eight commands |
| HistoryEditor.TypingRefines | kernel/shell.c:346-362 | the same for everything that can be typed |
| HistoryEditor.TypedLine | kernel/shell.c:357-360 | typed characters appear in order at the end of the line |
| HistoryEditor.FullLine | kernel/shell.c:357-360 | a 256th character is dropped |
| HistoryEditor.Backspaced | kernel/shell.c:349-353 | a character followed by Backspace gives the line back; Backspace on an empty line does nothing |
| HistoryEditor.CommandEntered | kernel/shell.c:201-209 | a line typed and entered becomes the latest of the last eight commands and the line is empty again; an empty line is no command |
| HistoryEditor.ArrowsShow | kernel/shell.c:172-184 | the up-arrow key pressed n times shows the n-th latest command |
| HistoryEditor.ArrowsReturn | kernel/shell.c:172-199 | pressed up n times and down n times, the line being typed is back |
| HistoryModel.UpsShow | kernel/shell.c:163-184 | n presses of the up arrow show the n-th latest command |
| HistoryModel.UpDownRestores | kernel/shell.c:172-199 | going up n times and down n times gives back the line being typed |
| HistoryModel.SerializeLines | kernel/shell.c:38-48 | the capped text is all the commands, one per line, missing at most the very last newline |
| HistoryModel.ParseSerialize | kernel/shell.c:38-87 | parsing what was serialised gives back the commands, eight of 255 bytes included |
| HistoryDisk.TrimPadded | kernel/shell.c:65-70 | trimming undoes the sector padding, also when the text fills its sectors |
| HistoryDisk.SaveRefines | kernel/shell.c:50-53 | a save sets exactly `history.dat` when, without the old file, a run and a slot are free; otherwise it removes exactly that file |
| HistoryDisk.HistorySurvivesReboot | kernel/shell.c:72-87 | after save, reboot and load the shell remembers the same commands in order if and only if the disk had room; otherwise none |
| HistoryDisk.FullDiskLosesHistory | kernel/shell.c:50-53 | one file of 511 sectors on a formatted disk makes any history vanish at the next reboot |
| HistoryDisk.TypedHistorySurvives | kernel/shell.c:38-87 | in particular for everything typed since boot |
| HistoryDisk.SaveNotEmpty | kernel/shell.c:50 | there is something to save exactly when a command was entered |
| HistorySessions.HistoryAcrossSessions | kernel/shell.c:201-209 | over any number of sessions, with other files written and deleted and saves that may find no room, the shell shows what the keys say and remembers the last eight commands since the file was last lost |
| HistorySessions.NothingLost | kernel/shell.c:201-209 | if every entry found room, those are the last eight commands ever entered |
| HistoryDriver.ShellLine.HistoryPush | kernel/shell.c:139-145 | the copy loop into the ring slot |
| HistoryDriver.ShellLine.HistoryUp | kernel/shell.c:172-184 | saving the line, stepping back, showing the command |
| HistoryDriver.ShellLine.HistoryDown | kernel/shell.c:188-199 | stepping forward, restoring the saved line |
| HistoryDriver.ShellLine.Type | kernel/shell.c:346-362 | one key, up to command dispatch |
| HistoryDriver.ShellLine.SaveText | kernel/shell.c:38-48 | the nested capped loops build the model's text |
| HistoryDriver.TrimToFirstNul | kernel/shell.c:65-70 | the length of the text before the first NUL |
| HistoryDriver.SplitLines | kernel/shell.c:80-86 | the line scan, last line unterminated or not |
| KeyboardModel.Decode | kernel/keyboard.c:29-82 | no scancode ever queues a NUL |
| KeyboardModel.DecodeMeaning | kernel/keyboard.c:32-79 | a letter key gives its letter, with shift its capital; a release queues nothing; the prefix turns exactly the next code into an arrow |
| KeyboardModel.NumberKeys | kernel/keyboard.c:72-73 | both tables for Escape, the digit row, Backspace and Tab |
| KeyboardModel.TopKeys | kernel/keyboard.c:72-73 | both tables for Q to P, the brackets and Enter |
| KeyboardModel.HomeKeys | kernel/keyboard.c:72-73 | both tables for A to L, semicolon, quote and backquote |
| KeyboardModel.BottomKeys | kernel/keyboard.c:72-73 | both tables for backslash, Z to M, comma, period, slash, star and Space |
| KeyboardModel.ShiftKeys | kernel/keyboard.c:55-65 | both Shift keys, pressed and released |
| KeyboardModel.PlainKeys | kernel/keyboard.c:67-79 | any other code of the table queues its character and nothing else does |
| KeyboardModel.PrefixedKeys | kernel/keyboard.c:32-53 | after 0xE0 only the two arrow codes queue something, and the prefix is used up |
| KeyboardModel.PushKeeps | kernel/keyboard.c:20-26 | a push appends, and is dropped exactly when 255 characters are pending |
| KeyboardModel.ReadKeeps | kernel/keyboard.c:84-89 | each of the reader's three steps keeps the queue's order |
| KeyboardModel.KeysInOrder | kernel/keyboard.c:11-89 | under every interleaving of interrupts and reader steps: characters read are a prefix of those accepted, at most 255 pending, only pushes into a full ring dropped |
| KeyboardModel.ReadDelivers | kernel/keyboard.c:84-89 | a read with a character waiting delivers exactly the oldest one, whatever interrupts come between its steps; with none waiting it gives up |
| KeyboardDriver.Keyboard.QueuePush | kernel/keyboard.c:20-26 | the push on the 256-byte buffer with 8-bit indices |
| KeyboardDriver.Keyboard.Handle | kernel/keyboard.c:29-82 | one interrupt: modifiers updated and at most one character queued |
| KeyboardDriver.Keyboard.ReadChar | kernel/keyboard.c:84-89 | an uninterrupted read gives the oldest pending character, or nothing |

## Left out

- Port programming, descriptor tables, the naked handlers, CR3 and TSS loads: a sector store, a tick counter and "which ESP, which directory" stand for them.
- Screen output, `fs_list`, `fs_read_file`, `ps`, `mem`, `uptime`, the message of the day and the rest of command dispatch: display and straight-line branching.
- `fs_create_file` as a step of the runs: FsRuns.CreateFileBreaks shows that no allocation invariant survives it, and nothing in the kernel calls it.
- Crashes in the middle of a file-system operation, and on-disk metadata not written by this kernel.
- Transient disk errors: a sector is either working or bad for the whole run, and retries inside the ATA driver are not modelled.
- FsRefinement.WriteRefines: for names of 1 to 23 bytes and sizes with size + 511 < 2^32; FsRuns.LongNameUnique and FsRefinement.SectorCountExact say what happens beyond, and FsDriver.FileSystem.WriteFile covers every size.
- FsDriver.FileSystem.WriteFile: names are C-string values, a null pointer counting as an empty name.
- FsDriver.FileSystem.RootLoad: says nothing of the directory in memory after a failed load, which `fs_init` overwrites.
- HeapDriver.KernelHeap.Kfree: only for NULL and live pointers; the source checks nothing and other pointers would corrupt the list.
- HeapDriver.KernelHeap.Init: for a non-null arena that holds a header and lies below 2^32.
- Preemption inside kernel calls that run with interrupts enabled: each call and each tick is one atomic step.
- SchedTiming.SleepSafety: for runs in which the Shell stays ready with priority >= 0 and the tick counter does not wrap; SchedTiming.SleeperElected shows the fallback otherwise.
- `schedule` before `init_multitasking`, task names, and the waiting loop of `task_sleep`, whose effect on the state is the step `Sleep`.
- ElfDriver.ElfLoad: for images whose bounds sums do not wrap, with p_filesz <= p_memsz and 8-byte relocation entries; other malformed images are outside the model.
- ArgvDriver.BuildArguments: the pointer table itself must fit the area; the shell passes at most eight arguments.
- ExecSafety.ProgramsIsolated: receives use pointers that ExecReceive.ReceiveExact calls harmless, inside the 4 MiB that are mapped; ring 3 tasks that are not exec'd have their windows below the heap; image and exec stacks lie below a page-aligned heap, and the heap below 0x300000, as `kernel/init.c:52` and the linker script place them.
- Kernel variables as bytes: the task table, `slot_pid`, page tables and file buffers are separate state, although some of them lie in pages that ring 3 can write (the image with its .data, and pages shared with the exec stacks); stores of ring 0 code other than those listed are not modelled.
- ExecWaiting.WaitingKept: for stretches in which no receive is aimed at the waiting task's stacks and no store at a waiting program's own stack, which ExecWaiting.AreaPrivate derives from private stacks.
- HistorySessions.HistoryAcrossSessions: no other command writes or deletes `history.dat`.
- The counter of commands is unbounded, not a 32-bit `int`.
- User programs and system-call wrappers.
