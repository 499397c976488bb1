# Pintos kernel: models and proofs

A model of the parts of the Pintos teaching kernel whose correctness is hard to see from the code, with proofs in
Dafny 4.11. `dafny verify dfyconfig.toml` checks all of it.

| part | files | what it models |
|---|---|---|
| Threads | `Kernel`, `OrderedList`, `Scheduling`, `Pending`, `Locking`, `Sleeping`, `Donation`, `Invariant`, `Guarantees`, `Panics`, `MergeSort`, `Machine` | scheduler, semaphores, locks with priority donation, the sleep list |
| Memory | `Bitmap`, `Palloc`, `Malloc`, `MallocInvariant`, `MallocSteps`, `MallocFree`, `MallocRuns`, `MallocGuarantees`, `MallocMachine` | page allocator and block allocator |
| File system | `Disk`, `Directory`, `MapFile`, `FileSys`, `FileSysInvariant`, `OpenInodes`, `Linking`, `NamedFiles`, `CreatingFiles`, `FileRuns`, `FileGuarantees`, `FileMount`, `FileSafety`, `FileLasting`, `FileConserved`, `FileLosses`, `FileSysMachine` | inodes, free map and its file, directory, files, formatting and restarting |
| Division | `Arithmetic` | 64-bit division by a 64/32-bit divide instruction |
| Program loading | `Tokens`, `ArgumentStack`, `Segments` | the argument stack and ELF segments |
| Page tables | `PageEntries`, `Pagedir`, `AddressSpaces`, `PageTables` | the two-level page directory on 32-bit words |
| Library | `Stdio`, `StdioMachine`, `Ustar`, `UstarMachine`, `Sorting` | integer formatting, archive headers, heapsort |

`Options`, `Sequences` and `Bytes` are shared.

The three larger parts have the same shape. Each operation is a function from state to state, with `None` (or
`Panic`) where an assertion of the source fails. An invariant is kept by every operation, so it holds in every
state that a run can reach; the theorems of `Guarantees`, `MallocGuarantees` and `FileSafety` are about those
states, and those of `FileLasting` and `FileConserved` about runs. The classes in `Machine`, `MallocMachine`,
`FileSysMachine`, `PageTables` and `Segments` update fields in place as the source does, loops included, and each
method is proved to do what its function says.

Threads are a transition system. A step is one maximal stretch of code that runs with interrupts off, and between
steps any other thread may run or the timer may tick. An up does not hand a unit over: the woken thread tests the
value again, and another may take the unit first.

What comes from outside is a parameter: whether memory is available and at which address, the ticks, and which
thread is created. Calls of the file system and of the allocators are sequential. Integers are unbounded, with
wrap-around written out where the source relies on it or suffers from it.

## Where the code is not what its comments or standards say

- A thread that runs on a donated priority and calls `thread_set_priority` for a higher one gets an original priority
  above its current one (`Guarantees.SetPriorityKeepsOrder`). If it then acquires a lock, an assertion of
  `update_priorities` fails and the kernel panics: `Panics.AssertionCanFail` is such a run, and
  `Panics.ChangeFailsExactly` and `Panics.PanicsExactly` say exactly when. In a run without such a call none fails
  (`Guarantees.NoPanic`).
- `malloc` rounds the sum of size and header in 32 bits. From 2^32 - 11 bytes on it gives one page
  (`MallocSteps.PageCountFits`), and `realloc` may then copy past the new block (`MallocRuns.CopyFitsExactly`,
  `MallocGuarantees.CopyOverruns`).
- When `dir_add` fails in `filesys_create`, only the sector of the inode is given back. Sectors are lost in that case,
  and by a restart while a removed file is open, and in no other (`FileConserved.ConservedExactly`,
  `FileConserved.NameTooLong`, `FileLosses.RestartLoses`).
- `filesys_create` with a negative length makes an assertion fail instead of returning false (`FileRuns.CreatePanics`).
- A directory with no free slot is not extended: `dir_add` writes past its end, and fails.
- `umod64` and `smod64` return 32 bits (`Arithmetic.Umod64`, `Arithmetic.Smod64`), and INT64_MIN by -1 wraps
  (`Arithmetic.Sdiv64`).
- A negative width given by `*` sets the minus flag after the zero flag was dropped for it, so both can be in
  effect, and the output is padded twice (`Stdio.LengthExact`, `Stdio.ParsedFlags`, `Stdio.PaddedTwice`).

## Model

| member | source | states |
|---|---|---|
| Guarantees.InvStep | pintos-p1/src/threads/synch.c:76-421 | Every interrupts-off step of every operation (creation, exit, yield, priorities, semaphores, locks, sleep, ticks) keeps the kernel invariant, and a step that switches threads leaves a running thread that no ready thread outranks |
| Guarantees.QueueDiscipline | pintos-p1/src/threads/thread.c:219-250 | In every reachable state exactly one thread runs, every other ready thread but the idle one is on the ready list exactly once, every blocked one but the idle one is on exactly one wait list, once, and no thread is listed otherwise |
| Guarantees.NoLostWakeup | pintos-p1/src/threads/synch.c:76-150 | In every reachable state a semaphore is its initial value plus its ups less its completed downs; while somebody waits it is at most the number of threads woken for it that have not resumed, and if it is positive one of them is running or ready |
| Guarantees.LockOwnership | pintos-p1/src/threads/synch.c:278-421 | In every reachable state a lock's semaphore and the threads between its acquire-side down and release-side up make one; a holder is the only such thread, and a lock is on the list of that thread at most |
| Guarantees.ReleasePriority | pintos-p1/src/threads/synch.c:373-413 | After the interrupts-off part of a release the thread's priority is the greatest of its original one and those of the locks it still holds (so the original one when none donates more); the lock leaves its list, and no other thread changes |
| Guarantees.SleepersServed | pintos-p1/src/devices/timer.c:92-123 | In every reachable state the sleep list is sorted and holds a thread once at most; a sleeper is upped exactly once for each sleep, only when its time has come, and then is not blocked with its unit still there; so none is early and none is lost |
| Guarantees.BlockedSleeperWaits | pintos-p1/src/devices/timer.c:100-123 | A sleeper that is blocked is still on the list, so a later tick will find it |
| Guarantees.SetPriorityKeepsOrder | pintos-p1/src/threads/thread.c:345-370 | thread_set_priority leaves the original priorities at most the current ones if and only if no donation is in effect or the new priority is not above the donated one |
| Guarantees.StepKeepsOrder | pintos-p1/src/threads/synch.c:215-237 | While no original priority is above its current one, no step fails an assertion of update_priorities, and a step keeps it so if and only if it is not a thread_set_priority, by a thread with a donated priority, above that priority |
| Guarantees.OrderExactly | pintos-p1/src/threads/thread.c:345-370 | Over a run original priorities stay at most current ones if and only if no call of thread_set_priority, by a thread with a donated priority, asks for more than the donated one |
| Guarantees.NoPanic | pintos-p1/src/threads/synch.c:215-237 | In every run in which each thread_set_priority is made without a donation in effect, or for at most the donated priority, no assertion of update_priorities fails |
| Panics.PanicsExactly | pintos-p1/src/threads/synch.c:278-300 | A step fails an assertion if and only if the running thread gets in line for a lock, its priority is above the lock's, and its donation reaches, along a chain of holders that are blocked and of lower priority, a thread whose original priority is above its current one |
| Panics.ChainOf | pintos-p1/src/threads/synch.c:215-237 | A failing donation has such a chain |
| Panics.FailsAlong | pintos-p1/src/threads/synch.c:215-237 | A donation fails along every such chain |
| Panics.ChangeFailsExactly | pintos-p1/src/threads/thread.c:345-370 | After any run without such a call: thread_set_priority and then lock_acquire of a new lock fail an assertion if and only if a donation is in effect and the priority asked for is above the donated one, which is above PRI_MIN |
| Panics.AssertionCanFail | pintos-p1/src/threads/synch.c:278-300 | A run of the kernel that does fail: with a lock held and a priority of 40 donated, the holder sets its priority to 50 and acquires another lock |
| Guarantees.MaxIsGreatest | pintos-p1/src/lib/kernel/list.c:492-505 | The value list_max finds is the greatest key on the list and the key of one of its elements; an empty list gives the caller's value for none |
| Donation.DonateRaises | pintos-p1/src/threads/synch.c:215-237 | update_priorities ends even on a cycle of holders; it raises priorities only, each to the donor's; it meets its assertions when original priorities are at most the current ones, and keeps them so |
| Donation.DonateCovers | pintos-p1/src/threads/synch.c:215-237 | If every other blocked thread waits for a holder of at least its own priority, afterwards that is so for the donor and for every blocked thread |
| Donation.DonateIsLeast | pintos-p1/src/threads/synch.c:215-237 | No smaller priorities would do: any that are at least the old ones and cover the donor and the blocked threads are at least the donated ones |
| OrderedList.InsertSorts | pintos-p1/src/lib/kernel/list.c:445-459 | Ordered insertion keeps a list sorted |
| OrderedList.InsertCount | pintos-p1/src/lib/kernel/list.c:445-459 | It adds the one element and keeps all others |
| OrderedList.SortSorts | pintos-p1/src/lib/kernel/list.c:401-440 | The stable sort, which is what list_sort computes (MergeSort.ListSort), is sorted |
| OrderedList.SortCounts | pintos-p1/src/lib/kernel/list.c:401-440 | It is a permutation of the list |
| MergeSort.ListSort | pintos-p1/src/lib/kernel/list.c:404-440 | The passes of natural merge sort end, with the stable sort of the list |
| MergeSort.MergePass | pintos-p1/src/lib/kernel/list.c:421-436 | A pass that puts out more than one run leaves fewer descents than there were, one that does not leaves none, and the stable sort of the list stays the same |
| MergeSort.InplaceMerge | pintos-p1/src/lib/kernel/list.c:379-399 | Merges two adjacent runs into one by splicing, changes nothing outside them, and keeps the stable sort of the list |
| MergeSort.FindEndOfRun | pintos-p1/src/lib/kernel/list.c:357-371 | Finds the longest run from a place on |
| MergeSort.MoveForward | pintos-p1/src/lib/kernel/list.c:391-398 | An element spliced in front of elements that it belongs before leaves the stable sort the same |
| MergeSort.SortedStays | pintos-p1/src/lib/kernel/list.c:439 | A list that is in order is its own stable sort |
| OrderedList.HeadOfSorted | pintos-p1/src/threads/thread.c:528-538 | The element taken from the front of the sorted list is one that no element precedes, and the others stay |
| OrderedList.ListInsertOrdered | pintos-p1/src/lib/kernel/list.c:445-459 | The walk of list_insert_ordered is ordered insertion: the new element goes behind every element it is not before |
| Scheduling.ScheduleRuns | pintos-p1/src/threads/thread.c:528-612 | schedule leaves one running thread, outranked by no ready one, takes it off the ready list, and changes nothing else |
| Scheduling.EnqueueWaiter | pintos-p1/src/threads/synch.c:85-91 | The running thread joins the wait list of one semaphore, in order, and no other list |
| Scheduling.DequeueWaiter | pintos-p1/src/threads/synch.c:134-142 | The first of the sorted waiters leaves that list and becomes ready |
| Pending.PendingTake | pintos-p1/src/threads/synch.c:76-95 | A down that finds a unit keeps the wake-up bound, whether the thread was woken for it or barges in |
| Pending.PendingWake | pintos-p1/src/threads/synch.c:127-150 | An up keeps the wake-up bound: it adds a unit and wakes one waiter if there is one |
| Pending.PendingWait | pintos-p1/src/threads/synch.c:85-91 | A thread that waits finds no unit, so the bound holds with it on the list |
| Locking.LocksTake | pintos-p1/src/threads/synch.c:330-335 | The acquire-side down hands the lock's one unit to the thread |
| Locking.LocksGive | pintos-p1/src/threads/synch.c:414-416 | The release-side up gives it back |
| Locking.LocksRelease | pintos-p1/src/threads/synch.c:400-413 | Clearing the holder and taking the lock off the list keeps ownership exact until the up |
| Locking.OnlyInsider | pintos-p1/src/threads/synch.c:278-421 | Two threads past the acquire of one lock and before its release are the same thread |
| Sleeping.SleepTake | pintos-p1/src/devices/timer.c:100-123 | A sleeper that gets its unit does so at or after its time, and leaves no unit behind |
| Sleeping.SleepWake | pintos-p1/src/devices/timer.c:203-217 | The tick ups the first sleeper's semaphore, whose value was 0, and keeps every other sleeper's bookkeeping |
| Invariant.TickTakes | pintos-p1/src/devices/timer.c:196-218 | A tick takes exactly the sleepers whose time has come off the list, in order, and leaves only later ones |
| Machine.ListMax | pintos-p1/src/lib/kernel/list.c:492-505 | The loop finds the greatest key |
| Machine.Computer.ScheduleNext | pintos-p1/src/threads/thread.c:528-612 | Sorting, picking and switching is the schedule step |
| Machine.Computer.SortReadyList | pintos-p1/src/threads/thread.c:540-543 | The ready list is replaced by its stable sort, and nothing else changes |
| Machine.Computer.ThreadBlock | pintos-p1/src/threads/thread.c:219-227 | The running thread blocks and another is scheduled: the whole new state |
| Machine.Computer.ThreadUnblock | pintos-p1/src/threads/thread.c:237-250 | The thread is inserted in the ready list and becomes ready; nothing else changes |
| Machine.Computer.ThreadYield | pintos-p1/src/threads/thread.c:309-324 | The running thread is inserted in the ready list, unless idle, and the next is scheduled |
| Machine.Computer.SemaDown | pintos-p1/src/threads/synch.c:76-95 | One pass of the loop: takes a unit, or waits in order and blocks; the whole new state |
| Machine.Computer.SemaTryDown | pintos-p1/src/threads/synch.c:102-121 | Takes a unit if there is one, and changes nothing if not; the result says which |
| Machine.Computer.SemaWake | pintos-p1/src/threads/synch.c:134-142 | The front of the sorted waiters is unblocked and the value goes up |
| Machine.Computer.SemaUp | pintos-p1/src/threads/synch.c:127-150 | That, and then a yield, as the whole new state |
| Machine.Computer.UpdatePriorities | pintos-p1/src/threads/synch.c:215-237 | The loop along the chain of holders ends and computes the donation that Donation is about, or reports where an assertion fails |
| Machine.Computer.BeforeGettingInLine | pintos-p1/src/threads/synch.c:278-300 | Notes the lock waited for, raises its donated priority if lower, and donates |
| Machine.Computer.UponGettingTheLock | pintos-p1/src/threads/synch.c:302-312 | Puts the lock on the thread's list and lowers its donated priority to the best waiter left |
| Machine.Computer.ReleaseLock | pintos-p1/src/threads/synch.c:400-413 | The interrupts-off part of lock_release: holder, list and priority |
| Machine.Computer.WakeSleepers | pintos-p1/src/devices/timer.c:203-217 | The loop wakes the sleepers whose time has come, and stops at the first later one |
| Machine.Computer.TimerInterrupt | pintos-p1/src/devices/timer.c:196-218 | The tick: the clock, the time slice, the wake-ups and the yield on return |
| Machine.Computer.TimerSleep | pintos-p1/src/devices/timer.c:112-120 | The thread sets its time and puts itself on the sleep list in order |
| Machine.Computer.ThreadSetPriority | pintos-p1/src/threads/thread.c:345-370 | Sets both priorities, or only the original one while a donation is in effect, and yields if it may be outranked |
| Bitmap.Contains | pintos-p1/src/lib/kernel/bitmap.c:250-263 | Whether a bit of that value is in the range |
| Bitmap.ScanAndFlip | pintos-p1/src/lib/kernel/bitmap.c:319-326 | Finds the lowest group of clear bits and sets exactly it, or finds none and changes nothing |
| Bitmap.SetMultiple | pintos-p1/src/lib/kernel/bitmap.c:217-228 | Sets exactly the bits of the range |
| Palloc.GetTakesFreePages | pintos-p1/src/threads/palloc.c:70-101 | A group of pages is the lowest that was free, and only it becomes used |
| Palloc.GetFailsWhenFull | pintos-p1/src/threads/palloc.c:70-101 | No group is given if and only if none is free (or none is asked for), and then nothing changes |
| Palloc.PutUndoesGet | pintos-p1/src/threads/palloc.c:117-142 | Giving a group back undoes taking it, and its assertion holds |
| Palloc.FreeReturnsToPool | pintos-p1/src/threads/palloc.c:117-142 | A group goes back to the pool it came from, found from its address, and the other pool does not change |
| Palloc.InitSeparates | pintos-p1/src/threads/palloc.c:39-62 | The two pools overlap neither each other nor their bitmaps, are all free, reach to the end of memory, and the user pool keeps its limit |
| Palloc.PagePool.GetMultiple | pintos-p1/src/threads/palloc.c:70-101 | The pool's bitmap is scanned and flipped: the page found and the whole new pool |
| Palloc.PagePool.FreeMultiple | pintos-p1/src/threads/palloc.c:117-142 | The group's bits are cleared and no others |
| MallocGuarantees.BlocksApart | pintos-p1/src/threads/malloc.c:89-154 | In every reachable state no byte of a block is in another block, in an arena header or on a page of another user, and its page is in use; and the block is as large as was asked for if and only if less than 2^32 - 11 was asked for |
| MallocGuarantees.FreeListsExact | pintos-p1/src/threads/malloc.c:124-151 | In every reachable state each free list holds exactly the blocks of its descriptor's arenas that are not given out, once each, and an arena's count is the number of its blocks on the list |
| MallocGuarantees.AllFreed | pintos-p1/src/threads/malloc.c:218-264 | When no block is given out there is no arena, every free list is empty and exactly the pages of other users are in use: everything went back |
| MallocGuarantees.NoEmptyArena | pintos-p1/src/threads/malloc.c:241-253 | Every arena between calls has a block that is given out |
| MallocGuarantees.NullOnlyWhenFull | pintos-p1/src/threads/malloc.c:96-133 | malloc returns null if and only if 0 bytes are asked for, or no block that would do is free and the pool has no group of pages long enough |
| MallocGuarantees.NoAssertionFails | pintos-p1/src/threads/malloc.c:267-282 | No run of malloc, realloc, free and page calls of other users makes an assertion fail |
| MallocGuarantees.DoOk | pintos-p1/src/threads/malloc.c:89-264 | Every permitted call meets the assertions and keeps the heap in order |
| MallocSteps.AllocOk | pintos-p1/src/threads/malloc.c:89-154 | malloc keeps the heap in order, and gives out a block that was not given out, whose size is enough as far as it can be, keeping the size and bytes of all others; or none, with no change to any block |
| MallocSteps.FindDescIsLeast | pintos-p1/src/threads/malloc.c:100-104 | The descriptor chosen is the first whose blocks are large enough |
| MallocSteps.PageCountFits | pintos-p1/src/threads/malloc.c:109 | With the 32-bit sum as it is, the pages of a big block hold the request if and only if it is below 2^32 - 11 |
| Malloc.BlockAddresses | pintos-p1/src/threads/malloc.c:284-294 | The blocks of an arena lie in its page behind the header, and the address gives back the arena and the number |
| Malloc.AlignedAddress | pintos-p1/src/threads/malloc.c:267-282 | An address that passes the assertions of block_to_arena is a block of that arena |
| MallocFree.BlockInArena | pintos-p1/src/threads/malloc.c:285-294 | A block given out lies inside its arena, behind the header |
| MallocFree.BlocksDisjoint | pintos-p1/src/threads/malloc.c:89-154 | Two blocks given out have no byte in common |
| MallocFree.FreeOk | pintos-p1/src/threads/malloc.c:218-264 | free of a block given out meets its assertions and keeps the heap in order |
| MallocFree.FreeKeeps | pintos-p1/src/threads/malloc.c:218-264 | It takes back that block only: all others keep size and bytes, and other users keep their pages |
| MallocRuns.FreeUndoesAlloc | pintos-p1/src/threads/malloc.c:89-264 | Freeing a block just given out brings back the free lists in order, the arenas and the page pools |
| MallocRuns.ReallocOk | pintos-p1/src/threads/malloc.c:194-214 | realloc changes nothing when there is no memory, and otherwise moves the bytes, as many as both blocks hold, to the block malloc gives and frees the old one |
| MallocRuns.CopyFitsExactly | pintos-p1/src/threads/malloc.c:207-209 | The copy stays inside the new block if and only if the size is below 2^32 - 11 or the old block fits in one page with its header |
| MallocGuarantees.CopyOverruns | pintos-p1/src/threads/malloc.c:195-214 | It does not always: after malloc (5000) as the first call, with a third page free, realloc to 2^32 - 1 copies past the new block |
| MallocMachine.MallocInit | pintos-p1/src/threads/malloc.c:71-85 | The descriptors' sizes and counts are those that the specification uses |
| MallocMachine.Allocator.FindDescriptor | pintos-p1/src/threads/malloc.c:100-104 | The loop finds the first descriptor that is large enough |
| MallocMachine.Allocator.AddBlocks | pintos-p1/src/threads/malloc.c:141-145 | The loop appends an arena's blocks, in order, to the free list |
| MallocMachine.Allocator.RemoveBlocks | pintos-p1/src/threads/malloc.c:247-251 | The loop takes an arena's blocks off the free list |
| MallocMachine.Allocator.Malloc | pintos-p1/src/threads/malloc.c:89-154 | The in-place allocator does what the specification of malloc says, and stays in order |
| MallocMachine.Allocator.Release | pintos-p1/src/threads/malloc.c:218-264 | So does free |
| MallocMachine.Allocator.Resize | pintos-p1/src/threads/malloc.c:194-214 | So does realloc |
| MallocMachine.Allocator.SizeOf | pintos-p1/src/threads/malloc.c:178-186 | block_size is the size of the block |
| FileSafety.NoAssertionFails | pintos-p1/src/filesys/filesys.c:17-103 | In every state that formatting and any run of create, open, reopen, remove, seek, read, write, deny, allow, close and restart reaches, any permitted call meets the source's assertions and keeps the file system in order |
| FileSafety.DoOk | pintos-p1/src/filesys/filesys.c:45-91 | Each call does so from any state in order |
| FileMount.FormatOk | pintos-p1/src/filesys/filesys.c:94-103 | Formatting makes a file system in order, whose disk holds the free map, an empty directory, and nothing else |
| FileMount.RestartOk | pintos-p1/src/filesys/free-map.c:53-61 | Starting again without formatting, when the map was last written completely, gives a file system in order with the same free map and the same disk |
| FileSafety.MapOnDisk | pintos-p1/src/filesys/free-map.c:27-50 | In every reachable state in which the map was last read, or written completely, the bytes of the free map's file decode to the free map |
| FileSafety.RestartFinds | pintos-p1/src/filesys/filesys.c:17-31 | So in every such state starting again finds the same free map, names and files |
| FileSafety.UsedIsOwned | pintos-p1/src/filesys/free-map.c:27-50 | Every sector marked used belongs to an inode, or the history marks it as nobody's (when that is so: FileConserved.ConservedExactly) |
| FileConserved.ConservedExactly | pintos-p1/src/filesys/filesys.c:45-59 | In every reachable state: afterwards every used sector is some inode's if and only if it was so before and the call is neither a creation with data for which all but the entry can be made, nor a restart while a removed file is open |
| FileConserved.RunConserves | pintos-p1/src/filesys/filesys.c:45-59 | Over a whole run sectors are lost if and only if one of its calls is of that kind, or they were lost before; what is lost stays lost |
| FileConserved.FormatConserves | pintos-p1/src/filesys/filesys.c:94-103 | After formatting nothing is lost |
| FileConserved.SmallFormat | pintos-p1/src/filesys/filesys.c:94-103 | Any disk of 4 to 4096 sectors can be formatted, and then just its first four sectors are used |
| FileConserved.NameTooLong | pintos-p1/src/filesys/filesys.c:54-55 | The input that loses a sector on a fresh disk: a name of 15 characters for a file of 512 bytes |
| FileLosses.RestartLoses | pintos-p1/src/filesys/inode.c:156-195 | On any formatted disk of 6 to 4096 sectors some run that has lost nothing, with a file created, opened and removed, comes to a restart that loses sectors |
| FileLosses.CreateSyncs | pintos-p1/src/filesys/filesys.c:44-59 | A creation that succeeds leaves the map on the disk complete |
| FileLasting.FileSurvives | pintos-p1/src/filesys/inode.c:160-186 | Whatever is done but closing it, writing to its inode or restarting, removal by name included, an open file keeps its inode, length and bytes, and its sectors stay used |
| FileLasting.FileOutlives | pintos-p1/src/filesys/inode.c:160-186 | So it is over whole runs |
| FileLasting.NameSurvives | pintos-p1/src/filesys/directory.c:91-216 | A file that has a name, open or not, keeps its sector, length and bytes, over restarts too, unless it is removed by that name or written to |
| FileLasting.NameOutlives | pintos-p1/src/filesys/directory.c:91-216 | So it is over whole runs |
| FileLasting.CreateThenRemove | pintos-p1/src/filesys/filesys.c:45-91 | A successful create and then a remove bring back the free map and the names |
| FileRuns.CreateOk | pintos-p1/src/filesys/filesys.c:45-59 | filesys_create succeeds if and only if the root opens, sectors for inode and data are free and the free map can be written, the name is valid and new and a slot is free; it touches no other file; a failure to add the entry loses exactly the data sectors, and any other changes the free map's file at most |
| FileRuns.CreatePanics | pintos-p1/src/filesys/inode.c:78 | The one assertion a caller can make fail: it fails if and only if the length is negative and creation comes to inode_create |
| FileRuns.RemoveOk | pintos-p1/src/filesys/filesys.c:83-91 | filesys_remove succeeds if and only if the name is there and memory for the inodes; it takes out that name only, touches no other inode but the free map's, and frees the sectors if the file is not open |
| FileGuarantees.CloseFileOk | pintos-p1/src/filesys/file.c:45-54 | Closing a file allows writing again if the file denied it, gives up the one opening, and frees the sectors at the last close of a removed inode only |
| MapFile.DecodeEncode | pintos-p1/src/lib/kernel/bitmap.c:340-360 | bitmap_read of what bitmap_write wrote gives the same bits |
| FileSysInvariant.MapWriteOk | pintos-p1/src/lib/kernel/bitmap.c:355-360 | Writing the map changes only data sectors of its file; it is complete if and only if there is a bounce buffer or no need of one, and then the file holds what was written |
| FileSysInvariant.AllocateOk | pintos-p1/src/filesys/free-map.c:27-41 | free_map_allocate takes the lowest run of free sectors, if there is one and the map can be written, and else gives the bits back |
| FileSysInvariant.ReleaseOk | pintos-p1/src/filesys/free-map.c:44-50 | free_map_release meets its assertion for used sectors, clears just their bits, and writes the map |
| FileSysInvariant.InodeCreateOk | pintos-p1/src/filesys/inode.c:72-106 | inode_create succeeds if and only if a run of free sectors is long enough and the free map is written; the new inode owns just those sectors, which were free, and no other inode is touched but the free map's data |
| FileSysInvariant.FreeSectorsOk | pintos-p1/src/filesys/inode.c:177-182 | The sectors of an inode that goes become free, and no others; the assertions of the free map hold |
| CreatingFiles.LeakOk | pintos-p1/src/filesys/filesys.c:54-55 | When the entry cannot be added, the sector of the inode is given back but its data sectors stay used and belong to nobody |
| CreatingFiles.GiveBackRestores | pintos-p1/src/filesys/filesys.c:54-55 | When the inode cannot be made, giving its sector back restores the state, but for the free map's file |
| FileSafety.SectorsApart | pintos-p1/src/filesys/inode.c:72-106 | In every reachable state distinct inodes, removed ones that are still open included, own disjoint sectors, all marked used |
| FileSafety.OneInodePerSector | pintos-p1/src/filesys/inode.c:111-142 | At most one inode in memory for a sector, on the list of open inodes once |
| FileSafety.CountsExact | pintos-p1/src/filesys/inode.c:163-171 | An inode's count is the number of files that have it open, above 0, and its deny count that of the files that deny writing |
| FileSafety.RemovedIsNameless | pintos-p1/src/filesys/inode.c:188-195 | An inode in memory is as the disk has it, and is removed if and only if no directory entry names it |
| FileRuns.OpenFileOk | pintos-p1/src/filesys/filesys.c:66-77 | filesys_open succeeds if and only if the name is there and memory for the inodes; it gives a file at position 0 of the one inode of that name, and changes nothing on disk |
| FileGuarantees.ReadOk | pintos-p1/src/filesys/file.c:68-74 | file_read gives the bytes from the position, cut at the end of the file, and advances the position by their number |
| FileGuarantees.WriteFileOk | pintos-p1/src/filesys/file.c:94-100 | file_write splices the bytes in at the position, cut at the end, none if denied; it advances the position and touches no other inode |
| FileGuarantees.DenyBound | pintos-p1/src/filesys/inode.c:322-338 | The deny count is positive for a file that denies, and below the open count for one that does not, so that both assertions hold |
| FileSafety.WritesUnlessDenied | pintos-p1/src/filesys/inode.c:257-266 | A write moves no byte if and only if some file that has the inode open denies writing, the buffer is empty or the position is past the end; and then the bytes are the same |
| FileSafety.AllowUndoesDeny | pintos-p1/src/filesys/file.c:116-141 | Allowing writing again brings back the state before it was denied, with every assertion met |
| Disk.WriteAtSplices | pintos-p1/src/filesys/inode.c:257-318 | Writing at any position and with any size splices into the file's bytes what lies before its end; nothing is written if and only if writing is denied, the buffer is empty or the position is past the end |
| Disk.ReadAfterWrite | pintos-p1/src/filesys/inode.c:200-318 | Reading where bytes were written gives them back |
| Disk.WriteLeavesOthers | pintos-p1/src/filesys/inode.c:257-318 | A write changes no byte of a file in other sectors |
| Disk.ReadChunk | pintos-p1/src/filesys/inode.c:207-246 | A turn of the reading loop: one sector's piece and then what is left |
| Disk.WriteChunk | pintos-p1/src/filesys/inode.c:268-314 | A turn of the writing loop replaces the piece of one sector |
| Disk.WriteSplices | pintos-p1/src/filesys/inode.c:257-318 | Writing byte by byte to the sectors of a file is splicing into its bytes |
| Directory.EntriesHold | pintos-p1/src/filesys/directory.c:91-112 | The map of a directory has exactly the names of the slots in use, with their sectors |
| Directory.AddSucceeds | pintos-p1/src/filesys/directory.c:141-179 | dir_add writes an entry if and only if the name is valid and absent and a slot is free |
| Directory.AddRefines | pintos-p1/src/filesys/directory.c:141-179 | It adds that name to the map and changes nothing else, and names stay unique |
| Directory.RemoveRefines | pintos-p1/src/filesys/directory.c:184-216 | dir_remove takes out exactly that name; lookup finds it if and only if it is in the map, with its sector |
| Directory.ListedOnce | pintos-p1/src/filesys/directory.c:221-236 | Reading the directory to its end lists each name in use once, and nothing else |
| Directory.FilledReads | pintos-p1/src/filesys/directory.c:171-175 | An entry that was filled in reads back its name and sector |
| FileSysInvariant.WriteOk | pintos-p1/src/filesys/inode.c:257-318 | A write to one inode's data keeps sector ownership and touches no other inode |
| OpenInodes.OpenOk | pintos-p1/src/filesys/inode.c:111-142 | inode_open gives the inode in memory if there is one and else a new one with one opening; it fails if and only if a new one is needed and there is no memory |
| OpenInodes.CloseOk | pintos-p1/src/filesys/inode.c:163-186 | inode_close takes back one opening; at the last one the inode leaves the list, and a removed one's sectors become free, with every assertion met |
| Linking.DirAddOk | pintos-p1/src/filesys/directory.c:141-179 | In the file system dir_add gives the new inode its name, or changes nothing, and touches no other inode |
| NamedFiles.DirRemoveOk | pintos-p1/src/filesys/directory.c:184-216 | dir_remove marks the inode removed and takes out its name, and touches no other inode; its sectors go when nobody has it open |
| CreatingFiles.CreateInOk | pintos-p1/src/filesys/filesys.c:49-56 | Creating in the open root: the exact condition for success, the new file, and what each failure leaves |
| FileSysMachine.FileSystem.WriteMap | pintos-p1/src/lib/kernel/bitmap.c:355-360 | bitmap_write of the map to its file, as the whole new state |
| FileSysMachine.FileSystem.ReadMap | pintos-p1/src/lib/kernel/bitmap.c:340-351 | bitmap_read: the loop stores the bits that the file holds |
| FileSysMachine.FileSystem.FreeMapAllocate | pintos-p1/src/filesys/free-map.c:27-41 | free_map_allocate, as the whole new state: scan, write, and set back when the writing failed |
| FileSysMachine.FileSystem.FreeMapRelease | pintos-p1/src/filesys/free-map.c:44-50 | free_map_release, as the whole new state |
| FileSysMachine.FileSystem.CreateMapFile | pintos-p1/src/filesys/free-map.c:72-85 | free_map_create, or where it panics |
| FileSysMachine.FileSystem.OpenMap | pintos-p1/src/filesys/free-map.c:53-61 | free_map_open, or where it panics |
| FileSysMachine.FileSystem.FormatDisk | pintos-p1/src/filesys/filesys.c:17-31 | From a fresh object, filesys_init with formatting reaches a file system in order, or panics where the specification says |
| FileSysMachine.FileSystem.LayOut | pintos-p1/src/filesys/filesys.c:94-103 | do_format: the map, its file and the root directory are made, or it panics where the specification says |
| FileSysMachine.FileSystem.RestartSystem | pintos-p1/src/filesys/filesys.c:17-39 | filesys_done and filesys_init without formatting, keeping the file system in order |
| FileSysMachine.FileSystem.CreateInode | pintos-p1/src/filesys/inode.c:72-106 | Allocates, writes the inode and clears the data: the whole new state |
| FileSysMachine.FileSystem.ClearSectors | pintos-p1/src/filesys/inode.c:98-99 | The loop clears the run of sectors and no other |
| FileSysMachine.FileSystem.FindInode | pintos-p1/src/filesys/inode.c:118-127 | The walk finds the open inode of that sector, if there is one |
| FileSysMachine.FileSystem.OpenInode | pintos-p1/src/filesys/inode.c:111-142 | inode_open, as the whole new state |
| FileSysMachine.FileSystem.CloseInode | pintos-p1/src/filesys/inode.c:163-186 | inode_close, as the whole new state |
| FileSysMachine.FileSystem.ReadInode | pintos-p1/src/filesys/inode.c:200-250 | The loop over sectors, whole or through the bounce buffer, reads a slice of the file's bytes |
| FileSysMachine.FileSystem.WriteInode | pintos-p1/src/filesys/inode.c:257-318 | The loop over sectors writes as one splice of the file's bytes |
| FileSysMachine.FileSystem.LookupName | pintos-p1/src/filesys/directory.c:101-111 | The loop finds the first slot in use with that name |
| FileSysMachine.FileSystem.FindFree | pintos-p1/src/filesys/directory.c:166-169 | The loop finds the first free slot, or the end |
| FileSysMachine.FileSystem.AddEntry | pintos-p1/src/filesys/directory.c:141-179 | dir_add on the disk, as the whole new state |
| FileSysMachine.FileSystem.RemoveEntry | pintos-p1/src/filesys/directory.c:184-216 | dir_remove on the disk, as the whole new state |
| FileSysMachine.FileSystem.ReadDirectory | pintos-p1/src/filesys/directory.c:221-236 | The loop gives the next name in use and the position after it |
| FileSysMachine.FileSystem.CreateFile | pintos-p1/src/filesys/filesys.c:45-59 | filesys_create in place, keeping the file system in order |
| FileSysMachine.FileSystem.RemoveFile | pintos-p1/src/filesys/filesys.c:83-91 | filesys_remove in place, keeping the file system in order |
| FileSysMachine.FileSystem.OpenFile | pintos-p1/src/filesys/filesys.c:66-77 | filesys_open in place, keeping the file system in order |
| FileSysMachine.FileSystem.CloseFile | pintos-p1/src/filesys/file.c:45-54 | file_close in place, keeping the file system in order |
| FileSysMachine.FileSystem.ReopenFile | pintos-p1/src/filesys/file.c:38-42 | file_reopen in place |
| FileSysMachine.FileSystem.SeekFile | pintos-p1/src/filesys/file.c:153-159 | file_seek in place |
| FileSysMachine.FileSystem.DenyFileWrite | pintos-p1/src/filesys/file.c:118-127 | file_deny_write in place |
| FileSysMachine.FileSystem.AllowFileWrite | pintos-p1/src/filesys/file.c:132-141 | file_allow_write in place |
| FileSysMachine.FileSystem.ReadFile | pintos-p1/src/filesys/file.c:68-74 | file_read in place |
| FileSysMachine.FileSystem.WriteFile | pintos-p1/src/filesys/file.c:94-100 | file_write in place |
| Arithmetic.Udiv64 | pintos-p1/src/lib/arithmetic.c:77-127 | For every dividend and nonzero divisor the quotient rounded down; both uses of the divide instruction meet its condition, so it never traps |
| Arithmetic.Divl | pintos-p1/src/lib/arithmetic.c:25-37 | The divide instruction, whose condition is that the quotient fits in 32 bits |
| Arithmetic.TwoDigits | pintos-p1/src/lib/arithmetic.c:82-111 | Dividing by a word in two digits is exact, and the second quotient fits in 32 bits |
| Arithmetic.Leading | pintos-p1/src/lib/arithmetic.c:121-123 | After the shift the leading word of the divisor has its top bit set, and stands for the divisor with an error below the shift |
| Arithmetic.Estimate | pintos-p1/src/lib/arithmetic.c:121-124 | The quotient by the leading word is the true one or one more, and one less than it times the divisor is never above the dividend |
| Arithmetic.Nlz | pintos-p1/src/lib/arithmetic.c:41-73 | The steps by 16, 8, 4, 2 and 1 count the zeros before the highest bit |
| Arithmetic.LeadingZerosTop | pintos-p1/src/lib/arithmetic.c:41-73 | A shift by that count is what brings the highest bit to the top, without loss |
| Arithmetic.DivideSmall | pintos-p1/src/lib/arithmetic.c:80-112 | The branch for a 32-bit divisor is exact |
| Arithmetic.DivideLarge | pintos-p1/src/lib/arithmetic.c:113-126 | The branch for a larger divisor is exact, with no wrap in the correction |
| Arithmetic.Umod64 | pintos-p1/src/lib/arithmetic.c:131-135 | The 32-bit result is the remainder if and only if the remainder fits; in general its low 32 bits |
| Arithmetic.Sdiv64 | pintos-p1/src/lib/arithmetic.c:139-146 | Truncated division (section 6.5.5 of ISO C99) if and only if it is not INT64_MIN by -1, which wraps to INT64_MIN |
| Arithmetic.Smod64 | pintos-p1/src/lib/arithmetic.c:150-154 | The 32-bit result is the remainder of truncated division if and only if that fits |
| Arithmetic.TruncatedMeans | pintos-p1/src/lib/arithmetic.c:139-154 | What truncation means: the remainder is smaller than the divisor and has the sign of the dividend |
| Tokens.Strtok | pintos-p1/src/lib/string.c:234-275 | For any delimiters, strtok_r finds the next word, cuts it off with a NUL, saves the place behind it, and changes nothing else; none is left if and only if only delimiters are |
| Tokens.SkipDelimiters | pintos-p1/src/lib/string.c:248-261 | The first loop skips the delimiters |
| Tokens.SkipToken | pintos-p1/src/lib/string.c:263-266 | The second loop goes to the word's end |
| Tokens.WordsKeepAll | pintos-p1/src/lib/string.c:202-233 | The words, put together, are all of the text but its delimiters |
| Tokens.WordsAreWords | pintos-p1/src/lib/string.c:209-212 | A word is not empty and has no delimiter in it |
| Tokens.SplitJoined | pintos-p1/src/lib/string.c:219-233 | Splitting undoes joining words with any delimiter |
| ArgumentStack.SetupStack | pintos-p2/src/userprog/process.c:499-580 | For every command line whose image fits, success if and only if there are fewer words than the limit; then the stack pointer is word-aligned, with the return word, argc and argv at it, argv[i] pointing to a copy of word i with a NUL, and argv[argc] null |
| ArgumentStack.PushWords | pintos-p2/src/userprog/process.c:522-540 | The first loop pushes the strings of the words, first word highest, and gives up at the limit |
| ArgumentStack.PushPointers | pintos-p2/src/userprog/process.c:554-563 | The second loop, going up through the strings, writes the pointers from the last word's to the first's |
| ArgumentStack.AlignStack | pintos-p2/src/userprog/process.c:544-552 | The pointer is aligned down to a word and the words for the null pointer are zero, above the strings untouched |
| ArgumentStack.PushFrame | pintos-p2/src/userprog/process.c:563-577 | argv, argc and the return word complete the image |
| ArgumentStack.PushString | pintos-p2/src/userprog/process.c:533-535 | A string pushed below the others is in place and leaves them as they were |
| ArgumentStack.PutPointer | pintos-p2/src/userprog/process.c:557-562 | A pointer written below the others is in place and leaves strings and pointers as they were |
| ArgumentStack.LengthBound | pintos-p2/src/userprog/process.c:529-540 | The strings never take more than the command line with its NUL |
| ArgumentStack.ShortLinesFit | pintos-p2/src/userprog/process.c:518-540 | Every command line of up to 1356 characters fits and keeps the limit |
| Segments.ValidateMeans | pintos-p2/src/userprog/process.c:395-436 | A segment is accepted if and only if it is not empty, lies wholly from page 1 to below PHYS_BASE, is no smaller in memory than in the file, and starts inside the file at the same place in its page |
| Segments.PlanFits | pintos-p2/src/userprog/process.c:343-369 | For an accepted segment the 32-bit sums do not wrap, load_segment's assertions hold, and the pages to map are user pages that cover the segment |
| Segments.Process.LoadSegment | pintos-p2/src/userprog/process.c:452-495 | Maps the segment's pages in order, each on the page that the user pool gives next; stops if and only if memory is short, a page is mapped already or the file ends too early; success if and only if all are mapped; and the pool has given just the pages that are mapped |
| Segments.Process.LoadPage | pintos-p2/src/userprog/process.c:466-489 | One page is taken, filled and mapped; or nothing changes, the page taken being given back |
| Segments.FramesApart | pintos-p2/src/userprog/process.c:466-489 | The pages of memory taken are distinct, were free before, and are the only ones that become used |
| Segments.SegmentLoaded | pintos-p2/src/userprog/process.c:452-495 | With the plan mapped the program sees the segment's bytes of the file, then zeros, with the permission asked for |
| Segments.OnlyUserPages | pintos-p2/src/userprog/process.c:452-495 | Just those pages are mapped, all of them user pages from page 1 on, and what was mapped before is unchanged |
| Segments.WholeFile | pintos-p2/src/userprog/process.c:474-479 | When no page was cut short the file holds all that the segment takes of it |
| PageEntries.IndicesArePage | pintos-p1/src/threads/pte.h:31-39 | Two addresses have the same two indices if and only if they are in one page |
| PageEntries.PageAndOffset | pintos-p1/src/threads/vaddr.h:22-41 | Page and offset make up the address |
| PageEntries.EntryRoundTrip | pintos-p1/src/threads/pte.h:92-104 | A packed entry gives back page and permission, and is present and a user's |
| PageEntries.DirectoryEntryRoundTrip | pintos-p1/src/threads/pte.h:70-81 | A packed directory entry gives back its table |
| PageEntries.BitsApart | pintos-p1/src/userprog/pagedir.c:172-215 | Setting and clearing the accessed and dirty bits changes nothing else in an entry |
| PageEntries.PresentApart | pintos-p1/src/userprog/pagedir.c:143-157 | Clearing the present bit changes no other bit |
| Pagedir.SetPageRefines | pintos-p1/src/userprog/pagedir.c:98-119 | pagedir_set_page adds the page to the map and changes no other; it fails if and only if a table is missing and there is no memory for one, and then the map is the same |
| Pagedir.GetPageRefines | pintos-p1/src/userprog/pagedir.c:125-137 | pagedir_get_page gives the map's frame with the offset, or null for a page that is not in the map |
| Pagedir.ClearPageRefines | pintos-p1/src/userprog/pagedir.c:143-157 | pagedir_clear_page takes out that page only, and keeps the other bits of its entry |
| Pagedir.SetFlagRefines | pintos-p1/src/userprog/pagedir.c:163-215 | The dirty and accessed bits do not change the map, and read back as set |
| AddressSpaces.RunStands | pintos-p1/src/userprog/pagedir.c:98-157 | Over every run of changes the two-level table stands for the map, and no assertion fails |
| AddressSpaces.CreateStandsEmpty | pintos-p1/src/userprog/pagedir.c:16-23 | A new directory stands for the empty map |
| AddressSpaces.DestroyFreesOnce | pintos-p1/src/userprog/pagedir.c:27-48 | pagedir_destroy frees each mapped frame, each page table and the directory once, and nothing else, when frames are mapped at most once |
| PageTables.PageDirectory.LookupPage | pintos-p1/src/userprog/pagedir.c:56-86 | Finds the table, or makes one when asked and there is memory: the whole new state |
| PageTables.PageDirectory.FindPage | pintos-p1/src/userprog/pagedir.c:56-86 | Finds the table without making one, and changes nothing |
| PageTables.PageDirectory.SetPageAt | pintos-p1/src/userprog/pagedir.c:98-119 | In place, what the specification of pagedir_set_page says |
| PageTables.PageDirectory.GetPageAt | pintos-p1/src/userprog/pagedir.c:125-137 | In place, pagedir_get_page, with no change |
| PageTables.PageDirectory.ClearPageAt | pintos-p1/src/userprog/pagedir.c:143-157 | In place, pagedir_clear_page |
| PageTables.PageDirectory.SetFlagAt | pintos-p1/src/userprog/pagedir.c:172-215 | In place, pagedir_set_dirty and pagedir_set_accessed |
| PageTables.PageDirectory.Destroy | pintos-p1/src/userprog/pagedir.c:27-48 | The two loops give the pages to free in the order of the specification |
| Stdio.NumeralReads | pintos-p1/src/lib/stdio.c:504-524 | The digits read back as the value, whatever the base, the commas and the zeros |
| Stdio.LengthExact | pintos-p1/src/lib/stdio.c:526-546 | The length is the greater of the width and the natural length if and only if not both minus and zero are set with something to pad, which pads twice |
| Stdio.ParsedFlags | pintos-p1/src/lib/stdio.c:343-416 | After parsing plus excludes space and a precision excludes zero; minus and zero are both left if and only if the width was a negative argument after a zero flag and no precision was given |
| Stdio.PaddedTwice | pintos-p1/src/lib/stdio.c:380-394 | The input for which both are left: seven characters for a width of four |
| Stdio.BufferFits | pintos-p1/src/lib/stdio.c:475-524 | The buffer of 64 characters is never overrun |
| StdioMachine.FormatInteger | pintos-p1/src/lib/stdio.c:469-547 | The loops of format_integer put out the specified characters |
| StdioMachine.FillBuffer | pintos-p1/src/lib/stdio.c:501-524 | The digits, and the zeros of the precision, fill the buffer, last digit first |
| StdioMachine.StoreDigits | pintos-p1/src/lib/stdio.c:506-513 | The loop over the digits stores them, last digit first, with their commas |
| StdioMachine.OutputReversed | pintos-p1/src/lib/stdio.c:543-544 | The last loop puts the buffer out from its end |
| StdioMachine.OutputDup | pintos-p1/src/lib/stdio.c:550-555 | Puts out the character that many times |
| StdioMachine.Vsnprintf | pintos-p1/src/lib/stdio.c:25-52 | Stores the longest prefix that fits and a NUL, nothing beyond the size, and returns the whole length |
| Ustar.HeaderRoundTrip | pintos-p1/src/lib/ustar.c:82-227 | For every name of at most 99 characters after stripping and every size from 0 to INT_MAX, parsing a made header gives the stripped name, the type and the size (0 for a directory) |
| Ustar.MadeExactly | pintos-p1/src/lib/ustar.c:82-96 | A header is made if and only if the stripped name has at most 99 characters |
| Ustar.StripIsFinal | pintos-p1/src/lib/ustar.c:65-73 | Stripping ends, leaves no prefix to strip and no name of a parent, and is idempotent |
| Ustar.StripIsSuffix | pintos-p1/src/lib/ustar.c:65-73 | What is left is the end of the name, or "." |
| Ustar.OctalExact | pintos-p1/src/lib/ustar.c:102-115 | A number that fits is printed as just so many octal digits, which have its value |
| Ustar.OctalRoundTrip | pintos-p1/src/lib/ustar.c:129-162 | Parsing an octal field undoes printing it |
| Ustar.ChecksumApart | pintos-p1/src/lib/ustar.c:36-54 | The checksum does not depend on its own field |
| UstarMachine.StripPrefixes | pintos-p1/src/lib/ustar.c:65-73 | The loop strips as specified |
| UstarMachine.CalculateChksum | pintos-p1/src/lib/ustar.c:36-54 | The loop sums the bytes, with spaces for the checksum's own field |
| UstarMachine.ParseOctalField | pintos-p1/src/lib/ustar.c:129-162 | The loop reads digits up to a NUL or space, or reports a bad digit or an overflow |
| UstarMachine.UstarMakeHeader | pintos-p1/src/lib/ustar.c:82-118 | The header's bytes are the specified ones, or nothing is written when the name is too long |
| UstarMachine.AllZeros | pintos-p1/src/lib/ustar.c:166-173 | Whether all bytes are zero |
| UstarMachine.UstarParseHeader | pintos-p1/src/lib/ustar.c:181-227 | The checks in their order: end of archive, magic, version, checksum, type, name and size |
| Sorting.Sort | pintos-p1/src/lib/stdlib.c:131-152 | The array is in order and a permutation of what it was, for every comparison that is a total preorder |
| Sorting.Heapify | pintos-p1/src/lib/stdlib.c:96-123 | heapify makes a heap of a subtree whose children are heaps, permutes the first elements only, and ends because its index grows |
| Sorting.BuildHeap | pintos-p1/src/lib/stdlib.c:142-144 | The first loop makes a heap |
| Sorting.SortStep | pintos-p1/src/lib/stdlib.c:146-151 | A turn of the second loop moves the largest element to the front of the sorted tail |
| Sorting.Largest | pintos-p1/src/lib/stdlib.c:103-112 | The largest of an element and its children |
| Sorting.SwapBytes | pintos-p1/src/lib/stdlib.c:66-79 | The two elements' bytes change places and no other byte changes |
| Sorting.RootIsLargest | pintos-p1/src/lib/stdlib.c:147-151 | The root of a heap is not below any of its elements |
| Sorting.TailGrows | pintos-p1/src/lib/stdlib.c:147-151 | The root of the heap may go in front of the sorted tail |
| Sorting.FloatStep | pintos-p1/src/lib/stdlib.c:119-121 | Swapping with the larger child leaves only that child's place in doubt |
| Sorting.BinarySearch | pintos-p1/src/lib/stdlib.c:184-207 | In a sorted array an element equal to the key is found if and only if there is one |

## Left out

- MallocRuns.ReallocOk: for sizes where the copy stays inside the new block, which `MallocRuns.CopyFitsExactly` determines; past that the source writes outside its block.
- ArgumentStack.SetupStack: for command lines whose image fits in the page, as the source assumes; its size test compares the size of a pointer and never fails, and the copy of the first word to the thread's name is not modelled.
- Segments.Process.LoadSegment: whether a page table can be made for a page is a parameter; the rest of `load` (ELF header, program header loop) is not modelled.
- Stdio.ParsedFlags: width and precision are unbounded integers, without the overflow of `int`.
- Sorting.Sort: elements are values, compared by a function; only `Sorting.SwapBytes` is about their bytes.
- Interleavings finer than a stretch with interrupts off, and those of threads inside `malloc`, `palloc` and the file system, which the locks there (or their callers) exclude.
- Condition variables, `thread_foreach`, MLFQ stubs, statistics and the time slice's accounting by kind of thread.
- `list_max` of an empty list: the source's result aliases the list's tail, and is taken as "none", the branch the callers test for.
- A permanent absence of priority inversion, which the source does not give: nested donation does not update the intermediate locks.
- Freeing of a thread's page after exit, and reuse of thread identifiers.
- The bytes of arena headers and of the list elements inside free blocks; only the bytes of blocks are modelled, with the filling by 0xcc.
- `calloc`, whose overflow test is incomplete.
- Failure of the allocation of a bounce buffer, except when the free map is written, of the buffer in `inode_create`, and of the structures for files and directories: assumed away. The allocation of an in-memory inode may fail.
- The bits of the map's last word that stand for no sector: the model writes zeros, where the source writes what malloc left until it first reads the map; reading masks them.
- A restart after the last writing of the free map was incomplete (`FileRuns.Allowed` leaves it out), or in the middle of a call.
- Use of `free_map_file` by anyone but the free map, and the pointer that `free_map_close` leaves behind.
- Subdirectories, which the source does not have, and directories whose length is not a multiple of an entry.
- The kernel half of page directories, TLB reload and activation.
- Conversions of `printf` other than integers, and the walk over its format.
- `qsort` and `bsearch`, which pass on to the modelled functions, and the cost of sorting.
- System calls, `exec` and `wait`, interrupts, devices, and the boot sequence.
