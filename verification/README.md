# A verified model of the Linux 0.12 kernel's core algorithms

This project models, in Dafny, the parts of the Linux 0.12 kernel whose correctness spans
many tables, tasks or calls, and proves what they are for: each task has a private memory,
each file is a byte array, no sleeper is lost, no page is counted wrongly, no bit of a
product is dropped. Everything is checked with

    dafny verify dfyconfig.toml

and nothing was executed.

| files | kernel part | main results |
|---|---|---|
| `AddressSpace`, `Growth`, `Paging`, `Program`, `Machine`, `MemoryFacts`, `SwapWalk`, `Evictions`, `Shortage`, `Memory`, `MemoryRuns`, `LateReclaim`, `PteWords` | virtual memory (mm/memory.c, mm/swap.c, kernel/fork.c) | paging refines private memories over all runs, and never fails with enough free frames; exact reference counts and slot ownership; write exclusion; when reclaiming disturbs copy-on-write |
| `WaitQueue` | sleep chains (kernel/sched.c) | the pointers list exactly the sleepers; a wake-up or a signal empties the queue |
| `FileTree`, `DiskTree`, `Truncation`, `FileSystem`, `FileRuns` | block tree and files (fs/inode.c, fs/bitmap.c, fs/file_dev.c, fs/truncate.c) | files refine sparse byte arrays over all runs; zone ownership; truncation under contention |
| `BufferCache`, `BufferIndex`, `BufferRuns` | buffer cache (fs/buffer.c) | bread(dev, blk) gives block blk of dev, transparently over all interleavings; sync writes back; carried out on hash chains and free list as linked structures |
| `Scheduler`, `Timers` | scheduler and timers (kernel/sched.c) | bounded waiting; what a sleeper is owed; no timer lost or early; on time exactly when additions come in order |
| `Elevator`, `DeviceRuns` | request queue (kernel/blk_drv) | at most two ascending runs, whatever the buffer cache asks for; who joins the sweep; conservation |
| `Buckets`, `Malloc` | bucket allocator (lib/malloc.c) | disjoint objects; pages given back exactly when empty |
| `ArgCopy`, `Exec` | exec argument layout (fs/exec.c) | argv and envp as given; exactly when the copy fits |
| `Words`, `Mantissa`, `Decimal` | floating-point emulator (kernel/math) | exact products, quotients and packed decimals; exactly when rounding is right |

Each part has a flat description of its state with an invariant, rewrites of that state
with a lemma each, and, where the kernel works in place, a class whose methods follow the
C functions loop by loop and are tied to the flat description. `Common` holds the option type.

Where the code does not do what its comments, its tests of conditions or its callers expect,
the model does what the code does and the difference is stated and delimited:

- Adding a timer does not shorten the one behind it, so later timers are put off
  (`Timers.RunOnTimeIff`, `Timers.DelayExample`).
- The room check of copy_strings compares an unsigned number with zero and never fails
  (`Exec.FateIs`, `Exec.TooLongOverruns`).
- A script called with an empty argument vector is miscounted (`Exec.ExecScript`,
  `Exec.EmptyVectorExample`).
- swap_out can give up with evictable pages left, when its cursor rests on a directory entry
  whose table has been freed (`SwapWalk.CompleteIff`, `SwapWalk.MissedExample`).
- un_wp_page and try_to_share go on with an entry that their own call of get_free_page may have
  evicted: counts go wrong exactly if it does (`LateReclaim.UnWpPage`, `LateReclaim.ShareMissing`,
  `LateReclaim.LostPageExample`).
- fdiv never reports an inexact quotient, since it never looks at a remainder: it is silent rightly
  exactly if nothing remains (`Mantissa.ExactIff`, `Mantissa.OneSeventh`).  It can also lose the
  last bit (`Mantissa.LastBitLostIff`).
- real_to_int looks at 32 bits after the point only (`Decimal.RoundsRightIff`).
- Linking a buffer into an empty hash chain writes through a null pointer (fs/buffer.c:179);
  the model guards it as fs/buffer.c:147 does.

Clocks, devices and user programs appear as parameters: the results of get_free_page in the
allocator and exec models, the zones in use during each pass of truncation, the additions a timer
function makes. Panics are results or are excluded by a precondition that names the panic.

## Model

| member | source | states |
|---|---|---|
| `MemoryRuns.Run` | mm/memory.c:137-529 | refinement over whole runs: after any sequence of first fork, fork, stores, read faults, reclaims, exits and execs every task reads exactly what a specification with one private memory per task gives it; an operation that applies to the tasks of the moment fails only if fewer frames are free than it calls get_free_page (two for an access that needs a frame and for a first fork; for a fork one, and one for each page table and each swapped-out page of the parent) and get_free_page came to have nothing to give; exit and exec never fail |
| `MemoryRuns.Perform` | mm/memory.c:137-529 | one operation changes the private memories as its specification says, or not at all if it fails; it succeeds only if it applies; if it applies and fails, too few frames were free, and get_free_page gave nothing in a state reached from the one before by reclaiming and by the tables and entries that are the operation's own: at most one page and one table for an access, what the parent has for a fork |
| `Memory.Vm.Fork` | kernel/fork.c:94-136 | if fork succeeds the child reads on every page what the parent read before and nobody else notices; it fails only if fewer frames are free than one, the parent's page tables and its swapped-out pages together, and get_free_page then had nothing to give while just the child was being made; then all views, all holders and the task set are as before |
| `Memory.Vm.CopyMem` | kernel/fork.c:47-74 | the tables are copied, or freed again when get_free_page had nothing, for which fewer frames must have been free than the parent has tables and swapped-out pages; no page of another task changes in either case |
| `Memory.Vm.CopyPageTables` | mm/memory.c:137-185 | tables 0 to n of the parent are copied so that the child reads what the parent read; it stops only where get_free_page has nothing, with fewer frames free at the start than calls to make, and with nothing changed but what reclaiming and copying change |
| `Memory.Vm.CopyTable` | mm/memory.c:151-182 | one directory entry: a fresh table is installed and filled, skipping absent ones; stops only without memory |
| `Memory.Vm.CopyRow` | mm/memory.c:161-181 | the inner loop: every entry handled so far reads alike in parent and child; stops only without memory |
| `Memory.Vm.CopyEntry` | mm/memory.c:162-180 | one entry: absent, swapped or present, the child gets the parent's view and no other view changes; it fails exactly for a swapped page without memory, and then nothing has changed |
| `Memory.Vm.HandOverEntries` | mm/memory.c:165-172 | a swapped page: the child takes over the slot and the parent gets its contents dirty and writable; nobody reads anything else |
| `Memory.Vm.ShareEntries` | mm/memory.c:173-180 | a present page is write-protected in both tables and counted once more; the new entry reads what the old one reads |
| `Memory.Vm.ForkKernel` | mm/memory.c:151-181 | fork by task 0: the child reads the kernel's first 160 pages, uncounted, and zeroes elsewhere; undone if get_free_page had nothing, which needs fewer than two free frames and is the only way to fail |
| `Memory.Vm.CopyKernelTables` | mm/memory.c:137-185 | copy_mem for a child of task 0, undone when there is no memory for the page table; then no frame was free |
| `Memory.Vm.CopyKernelRow` | mm/memory.c:160-181 | the 160 low pages are entered read-only and not counted, with all invariants kept |
| `Memory.Vm.Store` | mm/memory.c:262-321 | a user store with the faults it causes changes one byte of one page of one task and nothing that any other task reads; it fails only if the page is missing or shared, fewer than two frames are free, and get_free_page had nothing on the way |
| `Memory.Vm.StoreInPlace` | mm/memory.c:271-275 | a frame with one reference is made writable in place; only that page changes |
| `Memory.Vm.StoreInCopy` | mm/memory.c:282-288 | a shared or low frame is copied first and the sharers keep their contents; fails exactly if no frame is free |
| `Memory.Vm.CopyInto` | mm/memory.c:284-288 | the page gets the new frame, its old frame loses one count, and nobody else reads anything else |
| `Memory.Vm.TryToShare` | mm/memory.c:373-418 | a page of another task is shared exactly if it is present, managed and clean and a table can be had for it; refused or out of memory, nothing has changed; no view ever changes |
| `Memory.Vm.SharePage` | mm/memory.c:434-456 | refused exactly if no other task with the same executable or library has the page clean and present; no view changes whatever it finds |
| `Memory.Vm.DoNoPage` | mm/memory.c:462-529 | a missing page is swapped in, shared, loaded or zero-filled, and no task reads anything else afterwards, the faulting one included; it adds one page and at most its table; fails only if fewer than two frames are free and get_free_page had nothing on the way |
| `Memory.Vm.LoadMissing` | mm/memory.c:489-528 | the part for pages in no slot: shared if some task has it, else read from its file or zero; fails as the whole does |
| `Memory.Vm.FileFor` | mm/memory.c:491-500 | the file that backs the page, and that without one the task reads zeroes |
| `Memory.Vm.ReadFilePage` | mm/memory.c:510-523 | the page read holds the n-th 4096 bytes behind the header of the file, taken as its blocks one after another, and zeroes past the end of data |
| `Memory.Vm.PutLoaded` | mm/memory.c:508-528 | the loaded page is entered writable, or its frame given back when no table can be had; fails only if fewer than two frames are free and get_free_page had nothing for the page or for its table |
| `Memory.Vm.GetEmptyPage` | mm/memory.c:351-359 | a zeroed page is entered where the task read zeroes; given back on failure, for which fewer than two frames must be free |
| `Memory.Vm.PutPage` | mm/memory.c:200-256 | a frame is entered clean or dirty, in a new table if needed; only that page changes; fails exactly if a table is needed and none can be had, and then nothing has changed |
| `Memory.Vm.InstallTable` | mm/memory.c:213-218 | a fresh frame becomes a page table and no view changes |
| `Memory.Vm.SwapInPage` | mm/swap.c:94-118 | the page comes back dirty and writable, its slot is free again, and nobody reads anything else; fails exactly if get_free_page has nothing, and then nothing has changed |
| `Memory.Vm.TryToSwapOut` | mm/swap.c:124-151 | evicts exactly the pages that are clean, or dirty with one reference and a free slot, in the way that Evictions.Evict says; no view changes |
| `Memory.Vm.DropClean` | mm/swap.c:147-150 | a clean page is dropped: what backs it reads the same |
| `Memory.Vm.SwapOutDirty` | mm/swap.c:134-145 | a dirty page with one reference moves to the first free slot exactly if there is one; what its task reads stays |
| `Memory.Vm.ReclaimOne` | mm/swap.c:162-200 | the walk with its static cursors evicts one page exactly if some page that it does not miss can be evicted, namely the first such page on its way, and rests there; no view changes, and on failure nothing |
| `Memory.Vm.SkipAbsent` | mm/swap.c:169-177 | the first loop: on to a directory entry with a table, at a cost for each entry passed over |
| `Memory.Vm.ToNextTable` | mm/swap.c:181-194 | from the end of one table to the next one there is, or to the end of the budget, when all but the missed pages have been tried |
| `SwapWalk.CompleteIff` | mm/swap.c:166-197 | a cursor misses no page exactly if it rests on a table, not on its page 0 behind a gap, or on a gap with page entry -1 |
| `SwapWalk.CompleteWalk` | mm/swap.c:162-200 | from such a cursor the walk fails exactly if no page at all can be evicted |
| `SwapWalk.MissedExample` | mm/swap.c:169-177 | a valid state with an evictable page in which the walk finds nothing and get_free_page fails, because entries without a table are paid for twice |
| `SwapWalk.WalkOver` | mm/swap.c:179-199 | when the budget is used up every page that can be evicted is among those the cursor misses |
| `SwapWalk.ComeToNotMissed` | mm/swap.c:179-197 | no page the walk comes to is among those |
| `SwapWalk.HitMissesNothing` | mm/swap.c:195-196 | behind a page just evicted the cursor misses nothing that can be evicted |
| `SwapWalk.EvictionDrains` | mm/swap.c:134-150 | after an eviction the frame is held by clean entries only |
| `SwapWalk.DrainingFrees` | mm/swap.c:210-241 | when none of those can be evicted the frame is free, so the retry loop cannot fail after an eviction |
| `Memory.Vm.GetFreePage` | mm/swap.c:210-241 | the retry loop ends; the pages it evicts are those that state and cursor determine, and it returns a zeroed frame nobody else holds; no view changes; it returns zero exactly if no frame is free and the first walk is fruitless, and then nothing has changed |
| `Evictions.OneReclaim` | mm/swap.c:210-241 | the state and the cursor determine which pages get_free_page evicts, and in which order |
| `Evictions.TakesTheNext` | mm/swap.c:162-200 | the walk is a clock: from a cursor on a page table, where every eviction leaves it, it takes of all pages that can be evicted the first one ahead, going round the pages of tasks 1 to 63 |
| `Evictions.PageAfter` | mm/swap.c:124-151 | a clean page is gone after these evictions exactly if it is among them; a kernel frame, or a dirty page that is shared, never is |
| `Growth.DirtyEvictionNoDearer` | mm/swap.c:134-145 | a dirty page that is evicted frees one frame and will need one: frames in use and swapped-out pages together do not grow |
| `Growth.BudgetForTable` | mm/memory.c:154-160 | a page table that a fork adds is made up for by one table less to copy |
| `Growth.BudgetForPage` | mm/memory.c:165-172 | a frame for the parent's swapped-out page is made up for by one such page less to come |
| `Shortage.ForkHandsOver` | mm/memory.c:165-172 | what a fork has added and used up stays within its bounds when a slot is handed over |
| `Shortage.ForkShares` | mm/memory.c:173-180 | the same when a page is shared, which uses no frame |
| `Shortage.ForkReclaims` | mm/swap.c:210-241 | the same when pages are reclaimed on the way, the parent's included |
| `Shortage.ForkMisses` | mm/memory.c:137-185 | get_free_page fails in copy_page_tables only if fewer frames were free at its start than the parent has page tables and swapped-out pages |
| `Shortage.OneTakenForFork` | kernel/fork.c:94-97 | with the child's task page that is one more |
| `LateReclaim.UnWpPage` | mm/memory.c:279-289 | un_wp_page on a shared frame with the walk inside get_free_page: all counts stay right exactly if the page is not among those that this walk evicts, which state and cursor before the call determine; then only that page changes; else its old frame is uncounted twice, and if it is the frame that comes back its contents are lost |
| `LateReclaim.SafeToCopy` | mm/memory.c:279-289 | a kernel frame, a dirty page, or any page while a frame is free, is never evicted by that walk |
| `LateReclaim.UnsharedBadly` | mm/memory.c:284-285 | when the page had been evicted the count that goes down belongs to nobody, whatever frame came back |
| `LateReclaim.LostPageExample` | mm/memory.c:282-287 | two tasks share a page of ones; task 1 stores one byte and reads zeroes elsewhere, in a frame that counts as free |
| `LateReclaim.ShareMissing` | mm/memory.c:399-418 | try_to_share with the walk inside get_free_page: all counts stay right, and the page is shared, exactly if the walk does not evict it from the other task; else nothing is entered although success is reported, and a frame is counted once too often |
| `Memory.Vm.ScanFree` | mm/swap.c:221-235 | the scan finds the last free frame, marks and clears it, and returns zero only when none is free |
| `Memory.Vm.GetSwapPage` | mm/swap.c:60-75 | clears and returns the first set bit, zero only when there is none |
| `Memory.Vm.SwapFree` | mm/swap.c:77-87 | the bit of the slot is set and no other; slot 0 is ignored, and a slot that does not exist or is free already draws the warning |
| `Memory.Vm.FreePage` | mm/memory.c:67-77 | one count goes down, none for frames below LOW_MEM |
| `Memory.Vm.FreePageTables` | mm/memory.c:88-118 | all tables of the range are gone with all they name; no page of another task changes |
| `Memory.Vm.FreeTable` | mm/memory.c:100-114 | one page table with its entries is given back, each frame and slot once |
| `Memory.Vm.FreeEntry` | mm/memory.c:104-110 | one entry: its frame loses a reference or its slot becomes free |
| `Memory.Vm.Exit` | mm/memory.c:88-118 | free_page_tables as do_exit calls it: a task that exits reads nothing any more, all others read what they read |
| `Memory.Vm.Exec` | fs/exec.c:404-409 | after the old space is freed the task reads the new program's pages and nobody else notices |
| `Memory.Vm.FreeHeld` | kernel/fork.c:133-134 | the task page taken by a fork that fails goes back |
| `Memory.Vm.constructor` | mm/memory.c:531-543 | mem_init and the swap bitmap at start-up satisfy every invariant |
| `MemoryFacts.MemMapExact` | mm/memory.c:67-118 | exact accounting: in every valid state the mem_map byte of a managed frame is the number of present entries, directory entries and kernel holders naming it, and is at most the number of tasks, so the byte cannot wrap |
| `MemoryFacts.WritableCountsOne` | mm/memory.c:271-287 | write exclusion: a frame mapped writable is a managed frame with count one |
| `MemoryFacts.SlotHasOneOwner` | mm/swap.c:60-151 | a swap slot's bit is clear exactly when an entry names it, and then exactly one does |
| `MemoryFacts.HardwareReads` | mm/memory.c:147-163 | going through directory and page table from a linear address leads to the contents that the task is said to read, to the slot that holds them, or to no entry for a page it never wrote |
| `MemoryFacts.LinearAddress` | mm/memory.c:147-150 | each task has 64 Mb of linear addresses, sixteen directory entries of 1024 pages |
| `MemoryFacts.KernelPageIs` | mm/memory.c:160-162 | what a child of task 0 reads: the kernel's first 160 pages, zero elsewhere |
| `MemoryFacts.StartTied` | mm/memory.c:531-543 | the start-up tables are those of the start-up address spaces |
| `AddressSpace.ShareKeeps` | mm/memory.c:393-416 | sharing keeps all invariants, with equal dirty bits and no writable sharer; only the new page's view changes, to that of the old |
| `AddressSpace.WriteKeeps` | mm/memory.c:271-275 | a store through a sole mapping keeps all invariants and changes only that view |
| `AddressSpace.DetachKeeps` | mm/memory.c:104-110 | removing an entry keeps all invariants: a count goes down or a slot becomes free |
| `AddressSpace.AttachKeeps` | mm/memory.c:220-222 | entering a held frame keeps all invariants and gives the page that frame's contents |
| `AddressSpace.AddTableKeeps` | mm/memory.c:213-218 | a new page table keeps all invariants and all views |
| `AddressSpace.DropTableKeeps` | mm/memory.c:113-114 | freeing an empty page table keeps all invariants and all views |
| `Paging.SwapInKeeps` | mm/swap.c:112-117 | swap-in as a rewrite of the flat tables keeps all invariants and all views |
| `Paging.SwapOutKeeps` | mm/swap.c:134-145 | swap-out keeps all invariants and all views |
| `Paging.DropCleanKeeps` | mm/swap.c:147-150 | dropping a clean page keeps all invariants and all views |
| `Paging.HandOverKeeps` | mm/memory.c:165-172 | the slot hand-over of fork keeps the slot owned once and changes only the child's page |
| `Paging.CopyAndStoreKeeps` | mm/memory.c:282-288 | copy-on-write with the retried store keeps all invariants and changes only the writer's page |
| `Paging.CountFitsInByte` | mm/memory.c:179-179 | all sharers map a frame at the same place of their spaces, so no count exceeds 64 |
| `Program.LoadPage` | mm/memory.c:508-523 | four blocks are read, the first being block 1 + base / 1024, so that byte o of the page is byte 1024 + base + o of the file; the bytes past the end of data are cleared, exactly when the end lies inside the page |
| `Program.BreadPage` | fs/buffer.c:318-341 | each byte of the page is the corresponding byte of its block, zero for a hole |
| `Program.ProgramHolds` | mm/memory.c:489-523 | page (k, j) of a program holds bytes 1024 + ((k * 1024 + j) * 4096 + o) of its file, taken as its blocks one after another, and zero past the end of data; of a library those from its own start; without a file zeroes |
| `Program.ExecutableByte` | mm/memory.c:491-523 | the same for one byte, with any number of blocks read that reaches it |
| `Program.LibraryByte` | mm/memory.c:494-497 | the same for a library, which is not cut off |
| `Program.HeaderUnseen` | mm/memory.c:510-512 | files that differ only in block 0 give every page the same contents |
| `MemoryRuns.ExecReadsFile` | fs/exec.c:404-409 | in the specification of private memories a task reads after exec the bytes of the new program's file behind its header |
| `PteWords.DecodeEncode` | mm/memory.c:162-174 | words and entries correspond: decoding an encoded entry gives it back |
| `PteWords.AllStorable` | mm/swap.c:138-142 | every entry of a valid state fits into its 32-bit word |
| `PteWords.Tests` | mm/memory.c:390-397 | the bit tests for present, clean and writable, the frame mask and the slot shift read the entry |
| `PteWords.Protection` | mm/memory.c:173-173 | masking out and setting bit 1 changes the writable flag and nothing else |
| `PteWords.NewWord` | mm/memory.c:253-253 | or-ing 7, and the dirty flag, onto a frame address makes a writable entry, clean or dirty |
| `PteWords.Ranges` | mm/swap.c:132-132 | comparing whole words with LOW_MEM, also by unsigned subtraction, tells exactly whether the frame is managed |
| `WaitQueue.StepKeeps` | kernel/sched.c:202-245 | every sleep, wake-up, signal and resume keeps each sleeper in one chain once, and every task sent back to uninterruptible sleep has a runnable task above it |
| `WaitQueue.RunKeeps` | kernel/sched.c:202-245 | the same in every reachable state |
| `WaitQueue.WakeUpEmptiesQueue` | kernel/sched.c:213-223 | after a wake_up every schedule of the sleepers alone ends within 2n + r resumptions, and only with the queue empty: nobody is lost |
| `WaitQueue.SignalWakes` | kernel/sched.c:154-165 | a signal makes an interruptible sleeper runnable wherever it is in its queue, changes no chain, and lets it go on |
| `WaitQueue.SignalEmptiesQueue` | kernel/sched.c:154-223 | after a signal to a sleeper, with no wake_up, every schedule of the sleepers of its queue ends within 3n steps, and only with the queue empty, the one with the signal gone too |
| `WaitQueue.ResumeProgress` | kernel/sched.c:215-223 | each resumption lowers the potential and leaves the head of the queue runnable |
| `WaitQueue.Sleepers.SleepOn` | kernel/sched.c:202-213 | entering the queue through *p and the saved tmp is a push on the chain that these pointers list; state, head and tmp as in the code |
| `WaitQueue.Sleepers.AfterSchedule` | kernel/sched.c:213-224 | the head leaves and wakes the next; any other task wakes the head and sleeps on uninterruptibly; the warning about a null queue is never reached |
| `WaitQueue.Sleepers.WakeUp` | kernel/sched.c:236-245 | the head becomes runnable and nothing else changes |
| `WaitQueue.Sleepers.CheckSignal` | kernel/sched.c:163-165 | an interruptible sleeper becomes runnable, all chains stay, and it can go on from any place in its queue |
| `WaitQueue.Sleepers.constructor` | kernel/sched.c:202-210 | empty queues satisfy the invariant |
| `FileRuns.Run` | fs/file_dev.c:20-99 | refinement over whole runs: any sequence of reads, writes and truncations on many inodes behaves as independent sparse byte arrays; what is read is what was last written, or zero; a short write stores exactly the returned prefix, adds zones for its own blocks only and happens only on a full device; a truncation leaves the zones that the given zones in use imply and ends busy exactly if that is any; nothing is refused but unknown inodes and what is beyond the largest file |
| `FileRuns.Perform` | fs/file_dev.c:20-99 | each operation answers and changes byte arrays and zones as the specification allows, refusals, full devices and busy zones included |
| `FileRuns.BusyThroughout` | fs/truncate.c:83-105 | a truncation ends busy only if during every pass some zone of the inode was in use |
| `FileRuns.HeldUp` | fs/truncate.c:83-105 | a zone in use during all of the passes is still there at the end |
| `FileSystem.MinixFs.FileRead` | fs/file_dev.c:20-52 | the bytes returned are those of the file from the position on, holes as zeroes; nothing changes |
| `FileSystem.MinixFs.FileWrite` | fs/file_dev.c:57-99 | the file holds exactly the returned prefix at the position, all other bytes of all files as before; size, position and append agree; a short write happens only on a full device |
| `FileSystem.WrittenMeans` | fs/file_dev.c:73-92 | what a write leaves, without the tree: those bytes there, the size grown to hold them if there were any, no other byte and no other size changed |
| `FileSystem.MinixFs.WriteBlock` | fs/file_dev.c:73-92 | one turn of the loop: a prefix of what is left, up to the end of the block, or nothing on a full device |
| `FileSystem.MinixFs.WriteChunk` | fs/file_dev.c:76-91 | the part in one block: those bytes and the size change, and nothing else |
| `FileSystem.MinixFs.Bmap` | fs/inode.c:86-156 | the answer, on the words of the disk: below 7 the word of the inode; below 519 word n - 7 of the block its word 7 names; above that word (n - 519) % 512 of the block that word (n - 519) / 512 of the block of its word 8 names; zero where a word on the way is zero. With create it maps at most that block and the index blocks on the path to it, changes no byte of any file, and fails only on a full device |
| `FileSystem.MinixFs.MapBlock` | fs/inode.c:86-156 | the same by positions of the tree: direct, single and double indirect, each level filled if asked for |
| `FileSystem.MinixFs.BmapDouble` | fs/inode.c:124-155 | the same through two levels of indirect blocks |
| `FileSystem.MinixFs.Ensure` | fs/inode.c:137-141 | one level: the word is read, and filled with a fresh zone if asked for and empty |
| `FileSystem.MinixFs.NewBlock` | fs/bitmap.c:105-137 | takes the first free zone, which nobody owned, and sets its bit only; fails exactly when every zone is owned |
| `FileSystem.MinixFs.FindFirstZero` | fs/bitmap.c:51-65 | the first clear bit of a bitmap block, 8192 if there is none |
| `FileSystem.MinixFs.FreeWord` | fs/bitmap.c:72-99 | an owned zone is freed once with its word cleared exactly if it is not in use; no other zone is touched |
| `FileSystem.MinixFs.FreeInd` | fs/truncate.c:18-43 | under an indirect block exactly the zones in use and what leads to them stay; the rest is free, the block itself included if nothing is left under it |
| `FileSystem.MinixFs.FreeDind` | fs/truncate.c:48-73 | the same for the double indirect block, without touching the rest of the tree |
| `FileSystem.MinixFs.TruncatePass` | fs/truncate.c:84-100 | one pass leaves exactly the zones in use and what leads to them; it reports success exactly if that is nothing |
| `FileSystem.MinixFs.Truncate` | fs/truncate.c:75-108 | for any zones in use during each of any number of passes the tree that is left is the specified one; it ends exactly when a pass leaves nothing, and certainly with a pass in which no zone of the inode is in use; no zone is freed twice and none of another inode; what is left reads as before, the rest as zeroes; at the end all nine words are zero and the number of free zones has grown by exactly the zones owned |
| `FileSystem.MinixFs.FreeEmptied` | fs/truncate.c:39-42 | the indirect block goes if nothing below it is left and it is not in use |
| `Truncation.QuietPassEmpties` | fs/truncate.c:83-105 | a pass in which no zone of the inode is in use leaves nothing of it |
| `Truncation.PassLeaves` | fs/truncate.c:18-73 | what one pass leaves of the inode, position by position: a data block in use, an index block in use or naming one in use, and the double indirect block also for one two levels below |
| `Truncation.FreedAll` | fs/truncate.c:18-73 | after all branches below a position what stays is what is in use and what leads to it |
| `Truncation.PassOver` | fs/truncate.c:84-100 | after the nine words the tree is the one the pass should leave |
| `FileSystem.MinixFs.SetSizeZero` | fs/truncate.c:106-107 | the size becomes zero; all bytes of the file already read as zero |
| `FileSystem.MinixFs.constructor` | fs/bitmap.c:105-125 | an empty device satisfies the ownership invariant |
| `FileSystem.BitmapExact` | fs/bitmap.c:72-137 | a zone's bit is set exactly when some position of some inode owns it |
| `FileTree.IndexSplit` | fs/inode.c:91-155 | the direct, single and double index split is a bijection between block numbers below 7 + 512 + 512*512 and tree positions; which one, on the disk, is said by DiskTree.SingleOnDisk and DiskTree.DoubleOnDisk |
| `FileTree.GrowKeeps` | fs/inode.c:96-100 | a new zone keeps distinct positions on distinct zones and changes no byte |
| `FileTree.CutKeeps` | fs/bitmap.c:72-99 | freeing a position without children keeps the tree and all other inodes' bytes |
| `FileTree.PutKeeps` | fs/file_dev.c:76-91 | overwriting a data block changes exactly the bytes of that block of that file |
| `DiskTree.GrowTied` | fs/inode.c:116-120 | storing the new zone number and clearing the new block keeps inodes and indirect blocks in step with the tree |
| `DiskTree.CutTied` | fs/truncate.c:32-34 | clearing the word keeps them in step |
| `DiskTree.WordIsZone` | fs/inode.c:115-115 | the word found by walking the blocks is the zone the tree gives |
| `DiskTree.SingleOnDisk` | fs/inode.c:103-123 | for block 7 <= n < 519 of a file the zone is word n - 7 of the block that i_zone[7] names, none if that is zero |
| `DiskTree.DoubleOnDisk` | fs/inode.c:124-155 | for larger n it is word (n - 519) % 512 of the block named by word (n - 519) / 512 of the block that i_zone[8] names, none where a word is zero |
| `DiskTree.ByteOnDisk` | fs/file_dev.c:20-52 | byte a of a file is byte a % 1024 of the disk block of its zone for block a / 1024, zero without one |
| `BufferCache.StepKeeps` | fs/buffer.c:199-300 | over all interleavings at the sleeping points: one buffer per block, counts equal to the holders, flags that tell the truth, and every counted buffer carrying the block of the calls that counted it |
| `BufferCache.RunKeeps` | fs/buffer.c:199-300 | the same in every reachable state |
| `BufferCache.StartKeeps` | fs/buffer.c:377-414 | it holds at start-up |
| `BufferCache.WaitOverFinds` | fs/buffer.c:203-211 | the retry of get_hash_table is never taken |
| `BufferCache.HeldKeepsLabel` | fs/buffer.c:247-269 | a buffer with a positive count never changes its block |
| `BufferCache.Transparent` | fs/buffer.c:199-300 | no step other than a client's own change alters the logical contents of a block; relabelling loses no unwritten change |
| `BufferCache.RunTransparent` | kernel/blk_drv/ll_rw_blk.c:85-174 | over whole runs, with lock, transfer and completion as separate steps, a block that no client changes keeps its contents |
| `BufferCache.ReaderSeesLogical` | fs/buffer.c:286-300 | the holder of an up-to-date buffer reads the logical contents of the block its call is for |
| `BufferCache.BreadReturns` | fs/buffer.c:286-297 | from the moment the read request has locked the buffer, whatever other tasks and the device do, once it is unlocked it is up to date and the holder reads the logical contents of the block its call is for |
| `BufferCache.CallIsServed` | fs/buffer.c:199-300 | in every state of every run that begins with getblk(dev, blk) by a task, up to its release, the call is for exactly dev and blk; the buffer it owns is labelled with them, and if it is up to date holds the logical contents of that block |
| `BufferCache.BreadAnswers` | fs/buffer.c:286-300 | bread(dev, blk) from its call to its end, in the call's own arguments: the buffer is that of the block, and once it is unlocked it is up to date with the block's logical contents |
| `BufferCache.ReadsTheDisk` | fs/buffer.c:286-300 | as long as no client has changed a block, bread(dev, blk) gives what the disk held at start-up |
| `BufferCache.CleanIsOnDisk` | fs/buffer.c:286-300 | a buffer that is up to date, clean and at rest holds what its block of the disk holds |
| `BufferCache.ClaimsIff` | fs/buffer.c:247-262 | woken with a clean, unlocked buffer, getblk takes it exactly if it is free and nobody has cached the block; else it tries again |
| `BufferCache.SyncWritesBack` | kernel/blk_drv/ll_rw_blk.c:119-174 | over every run from the moment a dirty buffer is locked for a write that may not be given up, short of a client changing the block, the write is still to be done or the disk holds what clients see |
| `BufferCache.SyncCleans` | kernel/blk_drv/ll_rw_blk.c:91-92 | a buffer whose write has been queued stays clean over every run in which no client changes it, so that getblk's loop over sync ends |
| `BufferCache.ForgetVoids` | fs/bitmap.c:72-99 | after free_block has voided the buffer of a block the block is what the disk has |
| `BufferCache.StillArriving` | fs/buffer.c:286-297 | no step of another task or of the device makes void what has arrived or stops it from arriving |
| `BufferCache.ChangeTakesEffect` | fs/buffer.c:286-300 | a client's change is the logical contents from then on |
| `BufferIndex.Index.FindBuffer` | fs/buffer.c:182-190 | finds the buffer of a block exactly if one carries it |
| `BufferIndex.Index.Relabel` | fs/buffer.c:265-268 | after the buffer has moved each labelled buffer is in exactly its own hash chain, the free list still rings all buffers once with this one last, and blocks are still unique |
| `BufferIndex.Index.Rehash` | fs/buffer.c:144-180 | the buffer leaves its chain and enters that of its new block; no other buffer changes chains |
| `BufferIndex.Index.Unhash` | fs/buffer.c:146-152 | out of its chain, which is still doubly linked |
| `BufferIndex.Index.Hash` | fs/buffer.c:172-180 | into the chain of its block |
| `BufferIndex.Index.MoveBack` | fs/buffer.c:153-171 | to the end of the ring, the others in the same order |
| `BufferIndex.Index.PickVictim` | fs/buffer.c:232-242 | a buffer is found unless all are in use; it is dirty only if all unused ones are, locked only if all alike are, and the first of those on the free list |
| `BufferIndex.Index.constructor` | fs/buffer.c:377-414 | buffer_init yields one ring of all buffers and empty chains |
| `BufferRuns.Driver.Run` | fs/buffer.c:144-300 | over all interleavings at the sleeping points each given step that is enabled in its turn is taken, in the form to which the lookup and the scan lead, and carried out on the chains and the free list: in every state each labelled buffer is in exactly its hash chain, the free list rings all buffers once in the order of last use; and for each getblk(dev, blk) that was taken and not released the buffer head its task owns carries dev and blk |
| `BufferRuns.TakenAsGiven` | fs/buffer.c:225-270 | a run whose steps are enabled in turn and whose choices are those of the scan is taken unchanged |
| `BufferRuns.TakesOne` | fs/buffer.c:229-246 | state and order of the free list determine what lookup and scan lead to |
| `BufferRuns.ChosenIsLeastBad` | fs/buffer.c:232-242 | of the buffers the scan could take none is clean if the one chosen is dirty, none alike is unlocked if it is locked, and none alike stands before it on the free list |
| `BufferRuns.LastUsedStandsLast` | fs/buffer.c:153-171 | the buffer relabelled last stands last on the free list, the others keep their order, and no other step changes it |
| `BufferRuns.Driver.Perform` | fs/buffer.c:144-300 | one step of the cache, taken as lookup and scan decide and carried out on the index, with the order of the free list |
| `BufferRuns.Driver.Look` | fs/buffer.c:182-246 | find_buffer by its chain, else the scan: what they find is a step of the cache, and the victim is the first of the least bad unused buffers in the order of the free list |
| `BufferRuns.Driver.Scan` | fs/buffer.c:232-246 | a victim, the first of the least bad unused buffers, unless all are in use |
| `BufferRuns.Driver.Woken` | fs/buffer.c:247-269 | after the wait: in use again or cached, try again; else relabelled |
| `BufferRuns.Driver.TakeOver` | fs/buffer.c:262-268 | the buffer has the new label, count 1 and clean flags, is in the chain of its new block and last on the free list |
| `BufferRuns.Driver.PerformFlags` | fs/buffer.c:272-280 | the steps that change counts and flags only leave all links right |
| `BufferRuns.Driver.constructor` | fs/buffer.c:377-414 | buffer_init starts both halves in agreement |
| `BufferRuns.NextTied` | fs/buffer.c:199-280 | a step of the cache changes label, count and flags of its own buffer only |
| `BufferIndex.ScanFreeList` | fs/buffer.c:232-242 | one round of the free list with its early exit finds the first of the least bad unused buffers |
| `BufferIndex.Unlink` | fs/buffer.c:146-152 | a chain without the buffer, linked both ways |
| `BufferIndex.LinkFront` | fs/buffer.c:173-179 | a chain with the buffer in front, linked both ways |
| `BufferIndex.MoveToEnd` | fs/buffer.c:153-171 | a ring with the buffer last, linked both ways |
| `BufferIndex.MakeRing` | fs/buffer.c:387-411 | the loop and the closing assignments make one ring |
| `Scheduler.BoundedWaiting` | kernel/sched.c:170-189 | a task that stays runnable while other tasks hold the processor is chosen within 2 * sum(2p - 1) ticks, however the others sleep and wake |
| `Scheduler.StepBudget` | kernel/sched.c:422-426 | each tick lowers the waiting budget by one and nothing raises it |
| `Scheduler.ScheduledBudget` | kernel/sched.c:170-187 | renewing the time slices does not raise the budget |
| `Scheduler.ScheduledKeeps` | kernel/sched.c:170-187 | every counter stays between 0 and 2p - 1; a chosen task has ticks left |
| `Scheduler.RenewalHalves` | kernel/sched.c:183-186 | a renewal halves, rounded down, how far a counter is below 2p - 1 |
| `Scheduler.RenewalKeepsOrder` | kernel/sched.c:183-186 | among tasks of equal priority a renewal keeps the order of the counters |
| `Scheduler.SleeperIsOwed` | kernel/sched.c:170-187 | over every history in which a task sleeps through n renewals what it lacks to 2p - 1 is halved n times |
| `Scheduler.HalvedIs` | kernel/sched.c:183-186 | that is, divided by 2^n and rounded down |
| `Scheduler.SleeperFills` | kernel/sched.c:170-187 | after enough renewals, 2^n >= 2p, it has 2p - 1 ticks and keeps them |
| `Scheduler.SliceLasts` | kernel/sched.c:422-426 | a slice of c ticks lasts for c ticks: until then the task keeps the processor and loses one at a time |
| `Scheduler.Machine.Schedule` | kernel/sched.c:170-188 | chooses a runnable task with most ticks, the highest numbered among equals; if and only if all slices are used up it makes a second pass, before which the distance of every counter to 2p - 1 is halved; never a third |
| `Scheduler.Machine.Scan` | kernel/sched.c:171-180 | one pass finds such a task, or that none can run |
| `Scheduler.Machine.Refill` | kernel/sched.c:183-186 | of each task's counter the distance to 2p - 1 is halved, rounded down |
| `Scheduler.Machine.Tick` | kernel/sched.c:422-426 | a tick in user mode takes exactly one from the running task, and schedules when that was its last |
| `Scheduler.Machine.constructor` | kernel/sched.c:478-500 | empty task slots satisfy the invariant |
| `Timers.RunNeverEarly` | kernel/sched.c:333-418 | over every history of additions and ticks all deltas stay positive and no timer fires early |
| `Timers.StepNeverEarly` | kernel/sched.c:408-418 | one step; a tick fires one listed timer at most |
| `Timers.RunOnTimeIff` | kernel/sched.c:333-418 | a history is on time exactly if every addition asks for a later tick than all timers pending then: the delta of a timer inserted earlier is never taken off the next one |
| `Timers.RunConserves` | kernel/sched.c:333-418 | over every history each request is pending or has fired, exactly once, under the tick it asked for, and nothing else is or has |
| `Timers.UndisturbedIffEarlier` | kernel/sched.c:361-370 | an addition leaves a pending timer's time alone exactly if that timer fires before the new one |
| `Timers.InsertDelays` | kernel/sched.c:361-370 | by how much it puts the others off |
| `Timers.DelayExample` | kernel/sched.c:361-370 | a timer for 5 ticks that fires after 8 |
| `Timers.InsertPlaces` | kernel/sched.c:352-370 | the new timer is exactly at its requested distance and the others keep their order |
| `Timers.RankIsByTime` | kernel/sched.c:361-361 | the timers passed over are exactly those that fire earlier |
| `Timers.TickAdvances` | kernel/sched.c:408-418 | every timer comes one tick closer; the one that fires was one tick away |
| `Timers.TimerList.AddTimer` | kernel/sched.c:333-377 | the nodes from next_timer hold the list with the timer inserted, and are exactly the slots with a function, although contents move between nodes; panics exactly when all slots are taken |
| `Timers.TimerList.MoveBack` | kernel/sched.c:361-370 | the loop that exchanges contents ends with the insertion in order |
| `Timers.TimerList.Exchange` | kernel/sched.c:362-369 | one turn: the two entries change places, the new one with the other's delta taken off |
| `Timers.TimerList.PushFront` | kernel/sched.c:348-352 | the free slot becomes the first node |
| `Timers.TimerList.FindSlot` | kernel/sched.c:343-347 | the first slot without a function, if there is one |
| `Timers.TimerList.Tick` | kernel/sched.c:408-418 | at most one function is called, its slot is free again, and the additions it makes are on the list |
| `Timers.AddsInTurn` | kernel/sched.c:333-377 | the additions of the function called take effect in turn, those with a time to come and a function |
| `Timers.TimerList.Fire` | kernel/sched.c:413-415 | the first node leaves the list and its slot becomes free |
| `Timers.TimerList.constructor` | kernel/sched.c:327-331 | the empty list |
| `Elevator.RunKeepsTwoRuns` | kernel/blk_drv/ll_rw_blk.c:85-117 | over every run of additions with keys not in the queue, and completions, the queue is at most two strictly ascending runs |
| `Elevator.InsertKeepsTwoRuns` | kernel/blk_drv/ll_rw_blk.c:99-115 | an insertion never starts a third run |
| `Elevator.PopKeepsTwoRuns` | kernel/blk_drv/blk.h:123-139 | completing the head keeps the runs |
| `Elevator.RunConserves` | kernel/blk_drv/ll_rw_blk.c:85-117 | no request is lost or duplicated: for each key, initial plus added equals served plus queued |
| `Elevator.SweepAscends` | kernel/blk_drv/blk.h:40-43 | within one run of the queue reads come before writes, then devices ascend, and on a device the sectors do |
| `Elevator.JoinsSweepIff` | kernel/blk_drv/ll_rw_blk.c:109-112 | a new request is served in the sweep under way exactly if it lies between the request in service and the last one of the sweep |
| `DeviceRuns.KeysDiffer` | kernel/blk_drv/ll_rw_blk.c:164-168 | two buffers under transfer have requests with different keys |
| `DeviceRuns.KeyOf` | kernel/blk_drv/ll_rw_blk.c:164-168 | the request covers the bytes of the block, two sectors of 512, on its device, as a read or a write |
| `DeviceRuns.AddedIsNew` | kernel/blk_drv/ll_rw_blk.c:136-173 | what make_request adds for a locked buffer is not in the queue |
| `DeviceRuns.QueueRun` | kernel/blk_drv/ll_rw_blk.c:119-174 | every run of the buffer cache is, for the queue of a driver that serves it from the front, a run of additions of new keys and completions |
| `DeviceRuns.QueueIsTwoRuns` | kernel/blk_drv/ll_rw_blk.c:85-117 | so the queue is at most two ascending runs in every state after start-up |
| `Elevator.SankToEnd` | kernel/blk_drv/ll_rw_blk.c:99-113 | when the loop runs to the end below the last request, the queue was one run |
| `Elevator.InOrderIsTotal` | kernel/blk_drv/blk.h:40-43 | IN_ORDER is a strict total order on keys |
| `Elevator.PlaceIsFirst` | kernel/blk_drv/ll_rw_blk.c:99-113 | the place found is the first where the loop's condition holds |
| `Elevator.AddFollowsOrder` | kernel/blk_drv/ll_rw_blk.c:99-115 | the linked queue after add_request has the keys of the insertion |
| `Elevator.EndFollowsOrder` | kernel/blk_drv/blk.h:123-139 | end_request serves the first key |
| `Elevator.Device.AddRequest` | kernel/blk_drv/ll_rw_blk.c:85-117 | the request is linked in behind the place found, never before the head in service; a swap request behind the swap requests that follow the head and before the first other one |
| `Elevator.Device.LinkBehind` | kernel/blk_drv/ll_rw_blk.c:114-115 | the request is linked in behind the given one |
| `Elevator.Device.EndRequest` | kernel/blk_drv/blk.h:123-139 | the head leaves and the rest stays linked |
| `Elevator.FindSlot` | kernel/blk_drv/ll_rw_blk.c:146-153 | finds a free slot from the top, for writes in the lower two thirds only |
| `Malloc.Allocator.Alloc` | lib/malloc.c:128-188 | the object is new, its piece is at least as long as asked for, divides a page, and is 16 bytes or less than twice as long as asked for; every word in the other objects is kept; a page is taken only when in the pages of that size every place is an object in use; panics exactly beyond 4096 bytes or without a page that is needed |
| `Malloc.Allocator.FreeS` | lib/malloc.c:197-247 | exactly that object is gone and every word in the others is kept; its page is given back exactly when no object in use lies in it; panics exactly if no chain of large enough size has the page |
| `Malloc.Allocator.Apart` | lib/malloc.c:107-247 | in every state reached by calls the objects in use are disjoint, and the pages held are those in which one lies |
| `Malloc.Allocator.ClientStore` | lib/malloc.c:173-178 | whatever owners write into their objects, the free lists in the same pages stay intact |
| `Malloc.Allocator.InitDescs` | lib/malloc.c:107-126 | a page of descriptors is linked in a row in front of the spare ones; nothing else changes |
| `Malloc.Allocator.NewBucket` | lib/malloc.c:164-181 | a descriptor and a carved page are put into use |
| `Malloc.Allocator.Carve` | lib/malloc.c:173-178 | the loop links all pieces of the page and disturbs no other word |
| `Malloc.Allocator.Take` | lib/malloc.c:183-185 | the first free piece is handed out and counted |
| `Malloc.Allocator.Give` | lib/malloc.c:219-222 | the object is put before the free pieces of its page |
| `Malloc.Allocator.Retire` | lib/malloc.c:223-244 | the descriptor leaves its chain for the spare list; prev is accurate |
| `Malloc.Allocator.FindClass` | lib/malloc.c:139-141 | the smallest size that fits |
| `Malloc.Allocator.FindFree` | lib/malloc.c:151-153 | finds a page with room unless all pages of the size are full |
| `Malloc.Allocator.FindPage` | lib/malloc.c:206-216 | finds the page unless every chain that holds it is of too small a size |
| `Malloc.Allocator.FindInChain` | lib/malloc.c:211-215 | one chain, with the predecessor |
| `Malloc.Allocator.constructor` | lib/malloc.c:86-101 | the empty allocator |
| `Malloc.FreshPageKeeps` | lib/malloc.c:173-178 | carving a fresh page writes into no object |
| `Malloc.OthersKept` | lib/malloc.c:220-220 | the link word that free_s writes lies in no other object |
| `Malloc.PagesHoldObjects` | lib/malloc.c:223-244 | between calls a page is in use exactly if an object in use lies in it |
| `Buckets.LiveObjectsApart` | lib/malloc.c:128-188 | two objects in use never overlap |
| `Buckets.ClassFits` | lib/malloc.c:86-96 | the first size that is large enough is the smallest, or less than twice what is asked for |
| `Buckets.TakeKeeps` | lib/malloc.c:183-185 | taking a piece keeps each page's slots partitioned into free list and live objects, with refcnt counting the latter; the piece was not in use |
| `Buckets.GiveKeeps` | lib/malloc.c:219-222 | giving it back keeps the partition and every other page's free list |
| `Buckets.NewPileKeeps` | lib/malloc.c:164-181 | a fresh page disturbs no other page |
| `Buckets.ClientStoreKeeps` | lib/malloc.c:173-178 | a store into a live object meets no free-list word |
| `Buckets.PiecesAreSlots` | lib/malloc.c:173-178 | the pieces linked are exactly the multiples of the size in the page |
| `Buckets.UnchainKeeps` | lib/malloc.c:233-243 | cutting a descriptor out of its chain keeps all chains and the spare list |
| `Exec.Execve` | fs/exec.c:380-411 | main finds argc, argv[k] and envp[k] pointing to terminated copies of the k-th strings in order, both tables ended by null and disjoint from the strings; it starts exactly if the strings leave a byte free and the pages missing for them can be had, both known before the call; it overruns exactly if they are too long, the pages can be had and the environment alone does not fill the area; else it fails for want of memory |
| `Exec.FullAtEnvironment` | fs/exec.c:381-387 | strings that are too long together end exactly at the bottom only if those of the environment do |
| `Exec.ExecScript` | fs/exec.c:325-348 | for a script the arguments are the interpreter, its argument, the script and the rest; when it starts, fails and overruns, as a function of the strings and the pages; main receives them exactly if the argument vector was not empty, else the script becomes the first environment string |
| `Exec.Layout` | fs/exec.c:380-411 | for any groups of strings: what main receives and where, on a word boundary counted from the strings, and, from the strings and the pages there before, exactly when the copying starts the program, fails, or overruns |
| `Exec.FateIs` | fs/exec.c:150-198 | copying succeeds exactly if all strings together are shorter than the area; otherwise it runs below the area unless some call ends exactly at its bottom, because the check for room compares unsigned numbers |
| `Exec.TooLongOverruns` | fs/exec.c:174-177 | an argument as long as the area, for which the copy runs below it |
| `Exec.EmptyVectorExample` | fs/exec.c:325-344 | a script run with an empty argument vector that does not find its own name among its arguments |
| `Exec.EnoughAlways` | fs/exec.c:184-187 | 32 pages to be had are always enough |
| `Exec.PagesNeeded` | fs/exec.c:180-190 | from no argument page, the pages needed are those that n bytes below the top touch |
| `Exec.OneGroup` | fs/exec.c:380-387 | what the end of one call says about all of them |
| `Exec.CopyGroups` | fs/exec.c:380-387 | the calls in a row put the strings of later calls below those of earlier ones, and where they end is a function of the strings, the pages there and those to be had |
| `Exec.LaidReceives` | fs/exec.c:89-113 | the table words are what a program reading argc, argv and envp finds |
| `Exec.Image.CreateTables` | fs/exec.c:89-113 | below the strings, from the word boundary at or below them: both tables, the two pointers and the count; nothing else is written |
| `Exec.Image.FillTable` | fs/exec.c:102-106 | one loop: a pointer to each next string, found by scanning, and a null pointer |
| `Exec.Image.Skip` | fs/exec.c:104-104 | the scan ends behind the terminator of the string |
| `Exec.Image.MapPages` | fs/exec.c:220-225 | the argument pages appear in order just below the library area |
| `Exec.Image.PutLong` | fs/exec.c:99-99 | four bytes are written, lowest first |
| `ArgCopy.ArgPages.CopyStrings` | fs/exec.c:150-198 | the strings lie packed and in order below the start, all other bytes as before; it fails exactly if more pages are missing on the way down than can be had, and else overruns exactly if the strings are too long; which pages are taken |
| `ArgCopy.ArgPages.CopyString` | fs/exec.c:170-193 | one string, backwards across page boundaries, with the offset trick; exactly the pages reached are taken |
| `ArgCopy.ArgPages.PutByte` | fs/exec.c:192-192 | one byte of the area changes |
| `ArgCopy.GoesOn` | fs/exec.c:181-190 | copying in several goes needs the pages that copying in one go needs |
| `ArgCopy.ArgPages.PageFor` | fs/exec.c:184-187 | a missing page is taken if one can be had, and reads as it did before |
| `ArgCopy.ArgPages.Length` | fs/exec.c:170-173 | the length with its terminator |
| `Mantissa.Mul64` | kernel/math/mul.c:22-44 | the exact 128-bit product; no carry is lost |
| `Mantissa.AddProduct` | kernel/math/mul.c:31-36 | a 64-bit product added at the second word, when the sum fits |
| `Mantissa.Fmul` | kernel/math/mul.c:46-73 | the product brought up as far as the exponent allows and cut to 64 bits, with sign, overflow and underflow; for normalised operands the product truncated to 64 bits |
| `Mantissa.NormalProduct` | kernel/math/mul.c:64-72 | at most one shift is needed for normalised operands |
| `Mantissa.ExactProductIff` | kernel/math/mul.c:46-73 | what fmul stores is the product exactly if no bit that is set is cut off |
| `Mantissa.Normalise` | kernel/math/mul.c:64-67 | doubles until the top bit is set or the exponent is zero |
| `Words.ShiftLeft` | kernel/math/mul.c:13-20 | doubles four words, losing the top bit |
| `Words.ShiftRight` | kernel/math/div.c:22-26 | halves four words |
| `Mantissa.TrySub` | kernel/math/div.c:28-38 | subtracts, and reports exactly whether there was no borrow |
| `Mantissa.Div64` | kernel/math/div.c:40-61 | the quotient, floor(a / 2d) for the divisor d in the upper words, that is floor(m1 * 2^63 / m2); via the invariant a < 2b |
| `Mantissa.DivideStep` | kernel/math/div.c:46-60 | one turn keeps quotient and rest making up the dividend |
| `Mantissa.NextBit` | kernel/math/div.c:47-55 | the mask walks through the bits from the top, and setting one adds its value |
| `Mantissa.Fdiv` | kernel/math/div.c:63-109 | zero divide, underflow, overflow and denormal exactly; the quotient of the aligned divisor brought up; an inexact quotient is never reported, which is right exactly if the mantissas divide without remainder |
| `Mantissa.ExactIff` | kernel/math/div.c:90-108 | for all operands that raise no other exception, what is stored times the divisor is the dividend exactly if nothing remains of m1 * 2^63 divided by the aligned divisor |
| `Mantissa.DeliveredExactIff` | kernel/math/div.c:90-108 | the same for normalised operands |
| `Mantissa.OneSeventh` | kernel/math/div.c:104-105 | one divided by seven: not exact, and no flag set |
| `Mantissa.NormalQuotient` | kernel/math/div.c:90-97 | the mantissa delivered for normalised operands |
| `Mantissa.LastBitLostIff` | kernel/math/div.c:90-97 | it is the quotient cut to 64 bits exactly unless the dividend is smaller and the 64th bit is one |
| `Mantissa.SeventhLosesIt` | kernel/math/div.c:90-97 | one seventh as a case where the last bit is lost |
| `Decimal.BcdRoundTrip` | kernel/math/get_put.c:110-129 | an integer converted, stored as packed decimal and loaded again is the same real in every rounding mode exactly if its magnitude is below 10^18 |
| `Decimal.PutBcd` | kernel/math/get_put.c:219-240 | proper digits whose value is the rounded magnitude modulo 10^18, and the sign |
| `Decimal.TwoDigits` | kernel/math/get_put.c:234-237 | one turn of the loop: two digits in a byte, and the number divided by a hundred |
| `Decimal.GetBcd` | kernel/math/get_put.c:110-129 | the normalised real of the number in the bytes, for any nibbles |
| `Decimal.IntToReal` | kernel/math/convert.c:169-185 | the normalised form of the integer; zero loses its sign |
| `Decimal.OneInteger` | kernel/math/convert.c:169-185 | an integer has one normalised form and a form one integer |
| `Decimal.RealToInt` | kernel/math/convert.c:116-167 | the magnitude with 32 bits after the point, rounded by those bits; zero and overflow for too large a number |
| `Decimal.RoundsRightIff` | kernel/math/convert.c:146-166 | it is the correctly rounded value exactly if the bits beyond those 32 do not decide |
| `Decimal.RoundedMeans` | kernel/math/convert.c:146-166 | correctly rounded means, for the signed number: up the least integer not below it, down the greatest not above it, chop the nearest towards zero, nearest the nearest or the even one of two |
| `Decimal.NearHalfExample` | kernel/math/convert.c:147-153 | a number just above one half that is rounded to zero |
| `Decimal.ThreeShifts` | kernel/math/convert.c:137-145 | the three shift instructions move one 96-bit number down |
| `Decimal.Round` | kernel/math/convert.c:146-166 | the additions with carry are the rounding rule |
| `Decimal.IntegersAreExact` | kernel/math/convert.c:116-167 | an integer comes back from real_to_int unchanged in every mode |
| `Decimal.Mul10` | kernel/math/get_put.c:97-104 | ten times the number when it fits |
| `Decimal.Div10` | kernel/math/get_put.c:214-217 | quotient and remainder of the two-word number by ten |
| `Decimal.Add64` | kernel/math/get_put.c:106-108 | a word added to two words |

## Left out

- Memory.Vm.StoreInCopy: takes its frame without reclaiming memory, here and in the runs of MemoryRuns; with the walk, un_wp_page can break the counts, and LateReclaim.UnWpPage says exactly when.
- Memory.Vm.TryToShare: takes a missing page table without reclaiming, for the same reason; see LateReclaim.ShareMissing.
- Memory.Vm.SharePage: does not use the shortcut on the inode's reference count, which only saves the search.
- Memory.Vm.Store: stores by user code only; kernel copies into user memory (verify_area, write_verify) are not modelled. The write fault and the retried store are one step, since un_wp_page relies on that store to set the dirty bit.
- Memory.Vm.Exec: does not enter the argument pages; their contents are the subject of Exec.Execve.
- Memory.Vm.FreePage: the panic for a free or nonexistent page is excluded by the precondition; the callers are proved to meet it.
- Memory.Vm.Exit: the task page itself is given back by the parent's wait, which is not modelled.
- Page-table words: the accessed bit and the TLB flush are not modelled. Programs are assumed not to change while they run.
- WaitQueue.Sleepers.SleepOn: stopped and zombie states are not modelled, nor is the same task waiting on several queues (fs/select.c).
- FileSystem.MinixFs.Bmap: blocks beyond the largest file, on which the code panics, are excluded by the precondition.
- FileSystem.MinixFs.FileRead: positions beyond the largest file are excluded, as in Bmap; trimming to the file size happens in the caller and is not modelled.
- FileSystem.MinixFs.FileWrite: positions beyond the largest file are excluded; user copies that fault or sleep inside a block, and other writers between two blocks, are not modelled.
- FileSystem.MinixFs.Truncate: the zones in use during each pass are given; that other tasks release their blocks in the end is not claimed.
- FileSystem.MinixFs.constructor: starts from an empty device; inode allocation, directories, modes, times and i_dirt are not modelled.
- BufferRuns.Driver.Run: data, transfers and the places of the calls are kept beside the buffer heads, not in them; steps that are not enabled are skipped.
- BufferCache.StepKeeps: transfers succeed; invalidation on disk change and the whole-block path of block_write, which does not set b_uptodate, are not modelled. Clients change a buffer and mark it dirty in one step.
- BufferIndex.LinkFront: guards the null case as said above.
- Scheduler.Machine.Refill: treats empty task slots like tasks; their counters are never looked at.
- Scheduler.BoundedWaiting: fixed positive priorities, no fork and ticks in user mode only; sys_nice changes the priority on which the bound depends.
- Timers.TimerList.Tick: the function called may add timers; other effects of it, and the rest of do_timer, are not modelled.
- DeviceRuns.QueueRun: requests of buffers only, and a slot for each; requests for swap pages are not in the queue there.
- Elevator.Device.AddRequest: swap requests, which have no buffer, are placed before the others in the queue but are not part of the claims over runs.
- Malloc.Allocator.Alloc: interrupts between the steps are not modelled, nor are the addresses of descriptors; a page from get_free_page is assumed not to be in use already.
- Malloc.Allocator.FreeS: an object in a page in use must be live, which C cannot check; the second search for prev is not needed and not modelled.
- Exec.Execve: the strings are given as values instead of pointers into the caller's memory; parsing of the interpreter line, permissions and the header checks are not modelled.
- Mantissa.Fmul: the flags are results instead of bits of the status word; addition, comparison and the single and double formats of the emulator are not modelled.
- Decimal.Mul10: wrap-around beyond 64 bits is not stated; get_BCD is proved never to reach it.
- Decimal.Add64: the same.
- Decimal.PutBcd: the ten bytes are an array instead of user memory; page checks are not modelled.
- boot code, system call entry, drivers for disks, terminals and pipes, path lookup, super blocks, signals and process groups: left out as hardware handling or as easier than the parts above.
