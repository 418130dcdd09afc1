# Pintos in Dafny

A model of the algorithmic core of a Pintos kernel: its linked lists, 64-bit division, scheduler and
synchronisation, page and block allocators, buffer cache, files on sectors, hash table, heap sort, integer
printing and archive headers. Code that updates memory in place is modelled by classes and arrays with loops;
what it computes is stated over sequences, sets and maps, and the properties of whole runs are stated over
transition systems whose steps are the atomic sections of the code.

`dafny verify dfyconfig.toml` checks all of it.

| file | what it models |
|---|---|
| Basics, Sequences, PowerOfTwo, SectorWords | shared definitions; sectors as bytes and little-endian words |
| LinkedList, ListOrder | lib/kernel/list.c: nodes with `prev` and `next`, natural merge sort by splicing; the order theory behind it |
| Arithmetic | lib/arithmetic.c: 64-bit division out of the 64-by-32-bit DIVL instruction |
| Scheduler, SchedulerLaws | threads/thread.c and the semaphores of threads/synch.c, with interrupts-off sections as atomic steps; what each step does and what follows for runs |
| Monitor, MonitorProgress, LockLaws | the locks and condition variables of threads/synch.c, one step for each statement others can observe; their runs as runs of the scheduler; what each operation does from its beginning to its return |
| Bitmap, FreeMap | lib/kernel/bitmap.c on packed words, filesys/free-map.c on top of it |
| Palloc, Malloc | threads/palloc.c and threads/malloc.c over the bitmap and a flat memory |
| BufferCache, CacheLocks, CacheData, CacheCoherence, CacheLaws, CacheRace | filesys/cache.c: calls one after the other as a refinement of an array of sectors; overlapping calls as a locking protocol, what they do to the data, what each call achieves, and two runs in which they go wrong |
| FileLayout, Inode, FileCreation | filesys/inode.c over the buffer cache and the free map |
| HashTable | lib/kernel/hash.c |
| Heapsort, Printf, PrintfLaws, Ustar, UstarLaws | lib/stdlib.c, integer conversions of lib/stdio.c, lib/ustar.c, with what texts, names and headers they make and accept |

Conventions. Unsigned words are natural numbers with their bound in the type, and wrap-around is written out where
the code can meet it. A call that can run out of memory, or whose write of the free map can fail, takes the outcome
as an argument. A kernel panic is either an outcome of its own or excluded by the condition the code asserts.

What the code does not do as its comments say:

- `umod64` and `smod64` return 32 bits, so remainders are exact only for the divisors named by
  `Arithmetic.UMod64ExactIff` and `Arithmetic.SMod64ExactIff`; `sdiv64` wraps for one pair of operands.
- `allocate_doubly_indirect_blocks` zeroes the last table with the count of all blocks. `FileCreation.OverrunCondition`
  says exactly for which files it then reads past the table; until it does, it writes zeros to sector 0.
- `malloc` adds the header to the request in 32 bits. `Malloc.BigEnough` says exactly for which requests the block is
  big enough, and `Malloc.WrappedRequest` what the others get. `Malloc.OverrunIff` says exactly when `realloc` then
  copies past the end of the new block.
- `free_map_allocate_array` gives back what it took when it fails, and giving back writes the map to its file. Before
  that file is open this crashes, exactly if some but too few sectors are free: `FreeMap.Map.AllocateArray`, with
  `FreeMap.RollbackCrashes` as an instance. `FileCreation.CrashCondition` says for which files and how many free
  sectors creating a file then crashes.
- The buffer cache drops the tag of an evicted sector before it has written the sector back. `CacheCoherence.ReadsIff`
  says exactly in which runs all reads of a sector return its last write, and `CacheCoherence.RunIff` exactly which
  steps put the last write out of reach. `CacheRace.StaleRead` and `CacheRace.LostWrite` are runs from the empty cache
  in which a read returns old data and in which a write is lost.
- Formatting creates the free map's file by the same code. `FileCreation.Formatting` says that it never crashes, and
  from which device size on, and where, it overruns.

## Model

| member | source | states |
|---|---|---|
| LinkedList.List.constructor | code_162/group/pintos/src/lib/kernel/list.c:60-68 | a new list is well formed and holds no element |
| LinkedList.List.Insert | code_162/group/pintos/src/lib/kernel/list.c:168-178 | the element is spliced into the sequence of elements at the place before which it is inserted, and every `prev` mirrors every `next` |
| LinkedList.List.PushFront | code_162/group/pintos/src/lib/kernel/list.c:208-212 | the sequence gains the element at its front |
| LinkedList.List.PushBack | code_162/group/pintos/src/lib/kernel/list.c:216-220 | the sequence gains the element at its end |
| LinkedList.List.Remove | code_162/group/pintos/src/lib/kernel/list.c:248-255 | the sequence loses exactly the element at that place, and the element after it is returned |
| LinkedList.List.PopFront | code_162/group/pintos/src/lib/kernel/list.c:259-265 | a non-empty list loses and returns its first element |
| LinkedList.List.PopBack | code_162/group/pintos/src/lib/kernel/list.c:269-275 | a non-empty list loses and returns its last element |
| LinkedList.List.Splice | code_162/group/pintos/src/lib/kernel/list.c:183-204 | a range of a list is moved, in order, to any place outside the range; all other elements keep their order |
| LinkedList.List.SpliceFrom | code_162/group/pintos/src/lib/kernel/list.c:183-204 | a range is moved between two lists that share no node: one loses it, the other gains it, both stay well formed and disjoint |
| LinkedList.List.Size | code_162/group/pintos/src/lib/kernel/list.c:297-306 | the number of elements, found by walking the links |
| LinkedList.List.Reverse | code_162/group/pintos/src/lib/kernel/list.c:325-337 | swapping all links leaves a well-formed list of the same nodes in reverse order |
| LinkedList.ReversedTwice | code_162/group/pintos/src/lib/kernel/list.c:325-337 | reversing twice gives the original order back |
| LinkedList.List.IsSorted | code_162/group/pintos/src/lib/kernel/list.c:341-350 | true exactly if no element of the range is less than the one before it |
| LinkedList.List.FindEndOfRun | code_162/group/pintos/src/lib/kernel/list.c:357-372 | the end of the longest run that starts at the element and stays before the given end |
| LinkedList.List.InplaceMerge | code_162/group/pintos/src/lib/kernel/list.c:379-399 | two adjacent runs become one run that is a stable rearrangement of them; the rest of the list and its nodes stay |
| LinkedList.List.SortPass | code_162/group/pintos/src/lib/kernel/list.c:404-440 | one pass over a list with r natural runs counts ceil(r/2) output runs, leaves at most that many natural runs, and rearranges stably |
| LinkedList.List.Sort | code_162/group/pintos/src/lib/kernel/list.c:404-440 | for every strict weak order: terminates with a well-formed list of the same nodes that is sorted, keeps equal elements in order, equals what stable insertion sort gives, and makes fewer than log2(runs) further passes |
| ListOrder.StableSortUnique | code_162/group/pintos/src/lib/kernel/list.c:404-440 | a list has only one stable sorting: sortedness and order within each class of equal elements determine the result |
| ListOrder.StableSortIsInsertionSort | code_162/group/pintos/src/lib/kernel/list.c:404-440 | every sorted stable rearrangement is the one that inserting the elements one by one gives |
| ListOrder.HalvedBound | code_162/group/pintos/src/lib/kernel/list.c:404-440 | halving the run count k times brings more than m runs below only from more than m times 2^k runs |
| LinkedList.List.InsertInOrder | code_162/group/pintos/src/lib/kernel/list.c:445-459 | the element goes before the first element that is greater, so after all that are equal to it |
| ListOrder.InsertOrderedSorts | code_162/group/pintos/src/lib/kernel/list.c:445-459 | ordered insertion into a sorted list leaves it sorted |
| LinkedList.List.RemoveDuplicates | code_162/group/pintos/src/lib/kernel/list.c:465-486 | of each group of adjacent equal elements the first stays; the others leave the list and, if a list for duplicates is given, are moved in order to its end |
| ListOrder.UniquePartitions | code_162/group/pintos/src/lib/kernel/list.c:465-486 | no element is lost or made: kept elements and duplicates together are the original ones |
| ListOrder.UniqueNeighbours | code_162/group/pintos/src/lib/kernel/list.c:465-486 | no two neighbours in the result are equal |
| ListOrder.UniqueKeepsFirst | code_162/group/pintos/src/lib/kernel/list.c:465-486 | in a sorted list exactly one element of every class stays, and it is the first |
| Arithmetic.Nlz | code_162/group/pintos/src/lib/arithmetic.c:41-73 | the binary search by shifts counts the leading zero bits of every nonzero word |
| Arithmetic.EstimateWithinOne | code_162/group/pintos/src/lib/arithmetic.c:100-125 | dividing by a slightly smaller divisor gives the true quotient or one more |
| Arithmetic.NormalisedDivisor | code_162/group/pintos/src/lib/arithmetic.c:100-125 | shifting by the leading zeros puts the top bit of the divisor in place without overflow |
| Arithmetic.UDiv64Correct | code_162/group/pintos/src/lib/arithmetic.c:77-127 | for all 64-bit n and d: traps exactly for d = 0 and otherwise is floor(n/d); neither DIVL traps and no intermediate wraps |
| Arithmetic.UMod64Correct | code_162/group/pintos/src/lib/arithmetic.c:131-135 | the remainder reduced to 32 bits |
| Arithmetic.UMod64ExactIff | code_162/group/pintos/src/lib/arithmetic.c:131-135 | the remainder is exact for every n if and only if the divisor is at most 2^32 |
| Arithmetic.SDiv64Correct | code_162/group/pintos/src/lib/arithmetic.c:139-146 | truncated signed division, if and only if the operands are not INT64_MIN and -1; what is returned for those |
| Arithmetic.SMod64Correct | code_162/group/pintos/src/lib/arithmetic.c:150-154 | the C remainder, with the sign of the dividend, reduced to a signed 32-bit value |
| Arithmetic.SMod64ExactIff | code_162/group/pintos/src/lib/arithmetic.c:150-154 | the signed remainder is exact for every n if and only if the divisor's magnitude is at most 2^31 |
| Scheduler.Kernel.NextThreadToRun | code_162/group/pintos/src/threads/thread.c:546-553 | the first ready thread, which leaves the list, or the idle thread if none is ready |
| Scheduler.Kernel.ScheduleTail | code_162/group/pintos/src/threads/thread.c:571-599 | the new thread is running with a fresh time slice; a dying predecessor other than the initial thread is gone |
| Scheduler.Kernel.RunSchedule | code_162/group/pintos/src/threads/thread.c:608-622 | the kernel's fields change as the specification of a context switch says |
| Scheduler.Kernel.ThreadBlock | code_162/group/pintos/src/threads/thread.c:250-258 | the kernel's fields change as the specification of blocking says |
| Scheduler.Kernel.ThreadUnblock | code_162/group/pintos/src/threads/thread.c:268-280 | a blocked thread becomes ready and last in line; nothing else changes |
| Scheduler.Kernel.ThreadYield | code_162/group/pintos/src/threads/thread.c:354-368 | the running thread goes to the end of the line, unless it is the idle thread, and the first one runs |
| Scheduler.Kernel.ThreadExit | code_162/group/pintos/src/threads/thread.c:317-350 | the running thread leaves every list and another one runs |
| Scheduler.Kernel.ThreadTick | code_162/group/pintos/src/threads/thread.c:129-147 | the slice is counted and a yield follows exactly when it is used up |
| Scheduler.Kernel.SemaDown | code_162/group/pintos/src/threads/synch.c:60-76 | one test of the value: it is taken, or the thread joins the end of the wait list and another one runs |
| Scheduler.Kernel.SemaTryDown | code_162/group/pintos/src/threads/synch.c:83-102 | the value is taken if it is positive; the thread never waits |
| Scheduler.Kernel.SemaUp | code_162/group/pintos/src/threads/synch.c:108-121 | the value grows by one and the first waiting thread becomes ready; the kernel's fields change as the step does of which `SchedulerLaws.UpWakesFirst` says what it is |
| Scheduler.StepKeeps | code_162/group/pintos/src/threads/thread.c:250-622 | every atomic step of threads, semaphores and the timer keeps the whole scheduler invariant |
| Scheduler.Reachable | code_162/group/pintos/src/threads/thread.h:103-108 | in every state of every run: one thread is running, ready threads are on the ready list once, blocked ones on at most one wait list, and no element is on two lists |
| Scheduler.RunKeeps | code_162/group/pintos/src/threads/synch.c:60-121 | in every run, while threads wait on a semaphore at least `value` others are on their way to take it, and value = initial + ups - completed downs |
| Scheduler.WakeupIsScheduled | code_162/group/pintos/src/threads/synch.c:60-121 | if threads wait while the value is positive, some thread that will take it is ready or running: no wakeup is lost |
| Scheduler.RunClock | code_162/group/pintos/src/threads/thread.c:129-147 | over any run, consecutive context switches are at most TIME_SLICE ticks apart |
| Scheduler.WaitsItsTurn | code_162/group/pintos/src/threads/thread.c:546-622 | in every run the thread at place p of the ready list moves up by one at each switch and runs at exactly the (p+1)-th |
| Scheduler.BoundedWaiting | code_162/group/pintos/src/threads/thread.c:129-147 | in every run, a thread at place p of the ready list has run before 4(p+1) timer ticks have passed |
| SchedulerLaws.UpWakesFirst | code_162/group/pintos/src/threads/synch.c:108-121 | sema_up adds one to that value and to no other, and the thread that has waited longest leaves the wait list for the end of the ready list; the running thread goes on |
| SchedulerLaws.DownTakesOrWaits | code_162/group/pintos/src/threads/synch.c:60-76 | sema_down on a positive value takes one and goes on; on zero the thread is blocked at the end of the wait list and the first ready thread runs |
| SchedulerLaws.RetestTakesOrWaits | code_162/group/pintos/src/threads/synch.c:68-72 | so does every further test by a thread that was woken, which goes to the end of the wait list again if it comes too late |
| SchedulerLaws.TryDownTakes | code_162/group/pintos/src/threads/synch.c:83-102 | sema_try_down takes a positive value, and otherwise changes nothing at all |
| SchedulerLaws.InitSets | code_162/group/pintos/src/threads/synch.c:44-51 | sema_init gives the value and an empty wait list to that semaphore and to no other |
| SchedulerLaws.YieldGoesLast | code_162/group/pintos/src/threads/thread.c:354-368 | the running thread goes to the end of the line, unless it is the idle thread, and the first in line runs; no semaphore changes |
| SchedulerLaws.TickCounts | code_162/group/pintos/src/threads/thread.c:129-147 | the first three ticks of a slice are only counted, and the fourth makes the thread yield |
| SchedulerLaws.ExitKills | code_162/group/pintos/src/threads/thread.c:317-350 | the thread is dead and on no list, and the first ready thread runs |
| SchedulerLaws.StartGoesLast | code_162/group/pintos/src/threads/thread.c:172-280 | a new thread is blocked until it is started, and then last in line |
| SchedulerLaws.IdleGivesWay | code_162/group/pintos/src/threads/thread.c:441-471 | the idle thread is never put on a list and gives way to the first ready thread |
| SchedulerLaws.WaitsForItsUps | code_162/group/pintos/src/threads/synch.c:60-121 | in every run, the thread at place p of a wait list moves up one place with every sema_up of that semaphore and with no other step |
| SchedulerLaws.MadeReadyByItsUp | code_162/group/pintos/src/threads/synch.c:108-121 | in every run, exactly the (p+1)-th sema_up makes it ready |
| SchedulerLaws.RunsAfterItsUp | code_162/group/pintos/src/threads/synch.c:60-121 | in every run, it then runs, back in its sema_down, before four ticks have passed for each thread that was ready |
| SchedulerLaws.SliceGoesOn | code_162/group/pintos/src/threads/thread.c:129-147 | in every run, between two switches one thread runs and exactly the ticks since the first are counted |
| SchedulerLaws.SliceEnds | code_162/group/pintos/src/threads/thread.c:129-147 | in every run, a tick takes the processor away if and only if it is the fourth since the switch |
| SchedulerLaws.ExitIsFinal | code_162/group/pintos/src/threads/thread.c:317-350 | in every run, a thread that has exited never runs again |
| Monitor.MStepKeeps | code_162/group/pintos/src/threads/synch.c:192-338 | every statement of the lock and condition operations that others can observe, taken alone, keeps the invariant that ties locks, owners, windows and wait lists together |
| Monitor.MRunKeeps | code_162/group/pintos/src/threads/synch.c:192-338 | so does every run, with preemption between any two of those statements |
| Monitor.BootedInv | code_162/group/pintos/src/threads/synch.c:175-182 | freshly initialised locks and conditions satisfy it |
| Monitor.MutualExclusionAlways | code_162/group/pintos/src/threads/synch.c:192-236 | in every state of every run, the value of a lock's semaphore plus the threads inside is one, counting the windows before `holder` is set and after it is cleared; that the operations get a thread in and out is said by the LockLaws rows |
| LockLaws.AcquireTakesOrWaits | code_162/group/pintos/src/threads/synch.c:192-201 | lock_acquire of a free lock puts the thread inside; of a taken one it blocks the thread at the end of the lock's line |
| LockLaws.RetestAcquireTakesOrWaits | code_162/group/pintos/src/threads/synch.c:192-201 | so does every further test by a thread that was woken |
| LockLaws.TryAcquireTakes | code_162/group/pintos/src/threads/synch.c:209-221 | lock_try_acquire puts the thread inside a free lock, and otherwise changes nothing at all |
| LockLaws.SetHolderAcquires | code_162/group/pintos/src/threads/synch.c:192-221 | when an acquire returns, its thread is the holder and the only one inside |
| LockLaws.AcquireReturnsInside | code_162/group/pintos/src/threads/synch.c:192-221 | in every run, an acquire goes on or has returned that way |
| LockLaws.ReleaseBegins | code_162/group/pintos/src/threads/synch.c:228-236 | the holder that begins a release, alone or in cond_wait, is no longer the holder, and its next step can be the sema_up |
| LockLaws.ReleaseReturns | code_162/group/pintos/src/threads/synch.c:228-236 | when the release returns, the semaphore is 1, nobody is inside, and the first in the lock's line is at the end of the ready list |
| LockLaws.ReleaseFrees | code_162/group/pintos/src/threads/synch.c:228-236 | in every run, a release goes on or has returned that way |
| LockLaws.WokenHasItsTurn | code_162/group/pintos/src/threads/synch.c:192-236 | in every run, a thread at place p of the ready list that waits for a lock tests it before 4(p+1) ticks have passed, and is then the only one inside unless another thread is |
| LockLaws.ReleaseHandsOn | code_162/group/pintos/src/threads/synch.c:192-236 | in every run, the first in line when a lock is released has this turn before four ticks have passed for each thread then ready and itself |
| Monitor.OwnSemaphore | code_162/group/pintos/src/threads/synch.c:287-302 | only the waiter itself ever sleeps on the semaphore on its stack |
| Monitor.SignaledIsAwake | code_162/group/pintos/src/threads/synch.c:287-322 | a waiter whose signal has been delivered is ready or running, or has not slept yet and will not |
| Monitor.WaitBegins | code_162/group/pintos/src/threads/synch.c:287-302 | a call of cond_wait takes the next number in the order of waits |
| Monitor.WaitReturnsInOrder | code_162/group/pintos/src/threads/synch.c:287-322 | in every run, the n-th wait goes on until it has been signaled as the n-th and returns only then, holding the lock, even if the signal came before it slept |
| Monitor.SignalTakesOldest | code_162/group/pintos/src/threads/synch.c:311-322 | a signal ends exactly the oldest wait that is pending |
| Monitor.BroadcastWakesAll | code_162/group/pintos/src/threads/synch.c:330-338 | in every run, a broadcast returns only after all who waited have been signaled |
| LockLaws.SleepsUntilSignaled | code_162/group/pintos/src/threads/synch.c:287-302 | a waiter that has released the lock blocks on its own semaphore, unless its signal has been delivered already |
| LockLaws.SignalBegins | code_162/group/pintos/src/threads/synch.c:311-322 | cond_signal is for the thread that has waited longest, which leaves the list; without waiters it changes nothing at all |
| LockLaws.SignalArrives | code_162/group/pintos/src/threads/synch.c:311-322 | when it returns, that waiter's semaphore is 1 and the waiter, if it sleeps, is ready |
| LockLaws.SignalGoesThrough | code_162/group/pintos/src/threads/synch.c:311-322 | in every run, a signal goes on or has arrived that way |
| LockLaws.BroadcastBegins | code_162/group/pintos/src/threads/synch.c:330-338 | cond_broadcast starts out for all that wait, and can look at the list next |
| LockLaws.BroadcastSignalsNext | code_162/group/pintos/src/threads/synch.c:330-338 | it signals the thread that has waited longest while there is one, and returns when there is none |
| LockLaws.BroadcastLooksAgain | code_162/group/pintos/src/threads/synch.c:311-338 | after each of its signals it looks again, while a single signal returns |
| MonitorProgress.StepIsKernelStep | code_162/group/pintos/src/threads/synch.c:60-338 | every step of locks and conditions is one step of the scheduler, or leaves its state alone |
| MonitorProgress.RunIsKernelRun | code_162/group/pintos/src/threads/synch.c:60-338 | any part of a run of locks and conditions passes through the states of a run of the scheduler, so what holds of those holds here |
| MonitorProgress.MonitorBoundedWaiting | code_162/group/pintos/src/threads/thread.c:129-147 | in every run of locks and conditions, the thread at place p of the ready list runs before 4(p+1) timer ticks have passed |
| MonitorProgress.DeliveredIff | code_162/group/pintos/src/threads/synch.c:287-322 | the semaphore of a sleeping waiter is 1 exactly if it is off the list and no signal for it is on its way |
| MonitorProgress.SignalIsActedOn | code_162/group/pintos/src/threads/synch.c:60-76 | a waiter at place p of the ready list whose signal has been delivered tests its semaphore again, and gets past it, before 4(p+1) timer ticks have passed |
| MonitorProgress.DeliveredSignalIsActedOn | code_162/group/pintos/src/threads/synch.c:60-76 | so does every sleeping waiter whose signal has been delivered, before four ticks have passed for each thread then ready |
| BufferCache.Cache.constructor | code_162/group/pintos/src/filesys/cache.c:29-40 | the empty cache stands for the device |
| BufferCache.Cache.Find | code_162/group/pintos/src/filesys/cache.c:45-63 | the slot that caches the sector, or the knowledge that none does |
| BufferCache.Cache.Read | code_162/group/pintos/src/filesys/cache.c:43-96 | returns the sector's contents in the plain array of sectors that cache and device stand for, and changes none of them, on a hit, a free slot or an eviction; the device is written only for a dirty sector that is evicted, and no block becomes dirty |
| BufferCache.Cache.Write | code_162/group/pintos/src/filesys/cache.c:99-151 | changes exactly that sector of the plain array, on a hit, a free slot or an eviction; the device is written only for a dirty sector that is evicted, and only the sector written becomes dirty |
| BufferCache.Cache.Flush | code_162/group/pintos/src/filesys/cache.c:154-172 | the device becomes equal to the plain array, which does not change, and no block is dirty |
| BufferCache.Cache.CachedSet | code_162/group/pintos/src/filesys/cache.c:43-151 | after any calls, a sector is cached if and only if it has been accessed and fewer than 64 other sectors have been since |
| BufferCache.CachedIffRecent | code_162/group/pintos/src/filesys/cache.c:65-95 | the same for any capacity, from the order of the list alone |
| CacheLocks.StepKeeps | code_162/group/pintos/src/filesys/cache.c:45-171 | every step between lock operations, by any thread, keeps the tags distinct, the list a permutation of the slots in use, and each lock held by the thread that is where it holds it |
| CacheLocks.AlwaysCoherent | code_162/group/pintos/src/filesys/cache.c:45-171 | in every interleaving of any calls: no sector is cached twice, the list is a permutation of the slots in use, no two threads use one slot or one sector at once, and the slot a thread uses is tagged with its sector |
| CacheLocks.NoWaitCycle | code_162/group/pintos/src/filesys/cache.c:45-171 | in every interleaving, chains of threads waiting for each other's locks have at most three threads and are never cycles |
| CacheLocks.EveryCallReturns | code_162/group/pintos/src/filesys/cache.c:45-171 | from every reachable state, however the threads are interleaved, the calls in progress end within a bounded number of steps, and a state that cannot go on has no call in progress |
| CacheData.ActLocks | code_162/group/pintos/src/filesys/cache.c:45-171 | every step on data, dirty bits and the device takes one step of the locking or none |
| CacheData.ActKeeps | code_162/group/pintos/src/filesys/cache.c:43-171 | in every interleaving, a slot in use that has its tag but not yet its contents is some thread's to fill, which has found the slot and has a write-back, load or store to do, and no thread copies from such a slot; what the contents are is said by the CacheCoherence rows |
| CacheData.RunIsLockRun | code_162/group/pintos/src/filesys/cache.c:45-171 | as far as the locks go, every run on data is a run of the locking |
| CacheData.RunIsCoherent | code_162/group/pintos/src/filesys/cache.c:45-171 | so in every run on data no sector is cached twice and no threads wait for each other in a cycle |
| CacheData.EveryDataCallReturns | code_162/group/pintos/src/filesys/cache.c:43-171 | a run on data without new calls is no longer than the work left, and where it cannot go on no call is in progress |
| CacheCoherence.ReadsIff | code_162/group/pintos/src/filesys/cache.c:43-96 | in every interleaving of any calls, all reads of a sector return its last write if and only if the device had the last write whenever a miss read the sector from it |
| CacheCoherence.StaleLoadOvertakes | code_162/group/pintos/src/filesys/cache.c:76-91 | while the last write of a sector is safe, a miss that reads something else from the device has overtaken a thread that dropped the sector and has yet to write the last write back |
| CacheCoherence.ActIff | code_162/group/pintos/src/filesys/cache.c:43-171 | a safe sector (cached only with its last write, which the device, a dirty slot or a pending write-back holds) stays safe in a step if and only if the step is neither such a load nor a write-back of older contents when no dirty slot and no pending write-back has the last write |
| CacheCoherence.RunIff | code_162/group/pintos/src/filesys/cache.c:43-171 | a sector is safe in all states of a run from the empty cache if and only if no step was one of those two |
| CacheCoherence.StoredSafe | code_162/group/pintos/src/filesys/cache.c:99-151 | a store makes its sector safe, whatever went wrong before |
| CacheCoherence.ReadsLastWrite | code_162/group/pintos/src/filesys/cache.c:43-96 | as long as no step was one of those two, every read returns the last write |
| CacheCoherence.SerialReadsLastWrite | code_162/group/pintos/src/filesys/cache.c:43-151 | when calls do not overlap, every read returns the last write, so only overlap can go wrong |
| CacheLaws.ChoiceIs | code_162/group/pintos/src/filesys/cache.c:45-95 | a search, whatever overlaps it, ends on the slot that caches the sector, or else on the next free slot, or else on the last of the list, and puts that slot in front of the others |
| CacheLaws.ListIsRecent | code_162/group/pintos/src/filesys/cache.c:45-151 | in every interleaving, the list orders the slots by when a search last ended on them |
| CacheLaws.EvictsLeastRecent | code_162/group/pintos/src/filesys/cache.c:65-95 | in every interleaving, a slot is evicted only if a search has ended on every other slot since one ended on it |
| CacheLaws.CallBegins | code_162/group/pintos/src/filesys/cache.c:43-171 | a call begins with its own sector and, if it writes, its own bytes |
| CacheLaws.AccessGoesThrough | code_162/group/pintos/src/filesys/cache.c:43-151 | in every interleaving, a read or a write goes on or has copied: from a slot that has its sector's contents, or its bytes into the slot, which is then dirty |
| CacheLaws.AccessReturns | code_162/group/pintos/src/filesys/cache.c:91-151 | then it returns, giving back the slot's lock and changing nothing else |
| CacheLaws.FillMarks | code_162/group/pintos/src/filesys/cache.c:65-133 | a free slot that is taken is dirty at once exactly if it is taken for a write |
| CacheLaws.FlushWrites | code_162/group/pintos/src/filesys/cache.c:160-168 | a block that a flush takes is written to its own sector of the device and is clean; nothing else changes |
| CacheLaws.FlushLooksAtAll | code_162/group/pintos/src/filesys/cache.c:154-172 | in every interleaving, every slot that a flush has gone past was clean, or locked by a thread, at some time since the flush began, and when the flush returns it has gone past all |
| CacheLaws.SerialFlush | code_162/group/pintos/src/filesys/cache.c:154-172 | when calls do not overlap, a flush that returns leaves the last write of every sector on the device |
| CacheRace.StaleRead | code_162/group/pintos/src/filesys/cache.c:80-91 | a run from the empty cache, by two threads, that ends with a read about to return what sector 5 held before its last write |
| CacheRace.LostWrite | code_162/group/pintos/src/filesys/cache.c:130-171 | a run from the empty cache, by two threads, after which neither the device nor a dirty slot nor a thread has the last write of sector 5 |
| Bitmap.StoreBits | code_162/group/pintos/src/lib/kernel/bitmap.c:156-178 | or-ing a mask in, or and-ing its complement, changes exactly one bit of a 32-bit word |
| Bitmap.TestIsBit | code_162/group/pintos/src/lib/kernel/bitmap.c:197-203 | and-ing a mask is nonzero exactly if that bit is set |
| Bitmap.BitSet.constructor | code_162/group/pintos/src/lib/kernel/bitmap.c:78-93 | a new bitmap stands for bits that are all clear |
| Bitmap.BitSet.Mark | code_162/group/pintos/src/lib/kernel/bitmap.c:156-166 | of the bits the words stand for, exactly that one becomes set |
| Bitmap.BitSet.Reset | code_162/group/pintos/src/lib/kernel/bitmap.c:169-179 | exactly that one becomes clear |
| Bitmap.BitSet.Test | code_162/group/pintos/src/lib/kernel/bitmap.c:197-203 | the bit the words stand for |
| Bitmap.BitSet.SetMultiple | code_162/group/pintos/src/lib/kernel/bitmap.c:217-228 | exactly the bits of the range take the value |
| Bitmap.BitSet.Contains | code_162/group/pintos/src/lib/kernel/bitmap.c:250-263 | true exactly if some bit of the range has the value |
| Bitmap.BitSet.Scan | code_162/group/pintos/src/lib/kernel/bitmap.c:295-311 | the least start of a fitting group, or none exactly if there is none |
| Bitmap.BitSet.ScanAndFlip | code_162/group/pintos/src/lib/kernel/bitmap.c:319-326 | the least fitting group is found and flipped, and nothing else changes |
| FreeMap.Map.Allocate | code_162/group/pintos/src/filesys/free-map.c:30-47 | the first fitting group of free sectors; none, and the map as it was, exactly if there is no such group or the write of the map failed |
| FreeMap.Map.Release | code_162/group/pintos/src/filesys/free-map.c:74-82 | exactly those sectors become free |
| FreeMap.Map.ReleaseArray | code_162/group/pintos/src/filesys/free-map.c:85-93 | exactly the listed sectors become free, whichever they are; with the map's file not open it crashes after the first |
| FreeMap.Map.AllocateArray | code_162/group/pintos/src/filesys/free-map.c:50-71 | the first entries are distinct sectors that were free, each the first free one at its turn, and the others zero, exactly if enough sectors were free and the writes of the map went well; otherwise the map is as before, or the rollback crashes, exactly if the map's file is not open and some but too few sectors were free |
| FreeMap.RollbackCrashes | code_162/group/pintos/src/filesys/free-map.c:50-93 | an instance of the crash: the file not open, one sector free, two requested |
| FreeMap.FirstFitJoin | code_162/group/pintos/src/filesys/free-map.c:50-71 | allocating twice takes the same sectors as allocating them at once |
| SectorWords.BytesBack | code_162/group/pintos/src/filesys/inode.c:19-27 | a 32-bit word stored in a sector is read back from its bytes |
| Inode.FileSystem.ByteToSector | code_162/group/pintos/src/filesys/inode.c:50-98 | the sector that the direct, indirect or doubly indirect tables give for the block of the offset; 1 past the end and 0 past the largest size |
| Inode.FileSystem.ReadAt | code_162/group/pintos/src/filesys/inode.c:564-623 | copies bytes of the file that start at the offset, as many as are asked for or left in the file, and changes nothing on disk; without memory for the bounce buffer, whole sectors from the start of one, until less than another one is asked for or left |
| Inode.FileSystem.WriteAt | code_162/group/pintos/src/filesys/inode.c:629-705 | inside the length, splices exactly those bytes into the file's contents, moves no block and changes no other sector; nothing if writing is denied or there is no memory for the bounce buffer |
| Inode.FileSystem.WriteThenRead | code_162/group/pintos/src/filesys/inode.c:564-705 | what was written inside the length is what a read of the same place then returns |
| Inode.FileSystem.ReadInTwo | code_162/group/pintos/src/filesys/inode.c:564-623 | reading twice, the second time from where the first ended, gives what one read gives |
| FileLayout.SpliceBlock | code_162/group/pintos/src/filesys/inode.c:660-697 | writing part of one block splices the same bytes into the flat contents of the file |
| FileLayout.OtherFile | code_162/group/pintos/src/filesys/inode.c:50-98 | a file none of whose inode, table and block sectors is written keeps its layout and its contents |
| Inode.OthersUnchanged | code_162/group/pintos/src/filesys/inode.c:629-705 | a write leaves every file that shares no sector with the written one as it was |
| FileCreation.Volume.ZeroOut | code_162/group/pintos/src/filesys/inode.c:383-390 | exactly the listed sectors become zero, and whether the list was long enough |
| FileCreation.Volume.AllocateIndirect | code_162/group/pintos/src/filesys/inode.c:246-272 | a table and its zeroed blocks in sectors that were free, exactly if the sectors and the writes of the map suffice in the state before; the crash exactly under its condition; failure otherwise |
| FileCreation.Volume.AllocateDoublyIndirect | code_162/group/pintos/src/filesys/inode.c:274-323 | the table of tables, every table and every block in sectors that were free, listed each at its place and zeroed; each of success, overrun and crash exactly under its condition in the state before; failure otherwise |
| FileCreation.Volume.AllocateBlocks | code_162/group/pintos/src/filesys/inode.c:326-380 | the three parts for any number of blocks; success exactly if as many sectors are free as blocks and tables are needed, the writes of the map go well and the zeroing does not overrun; overrun and crash exactly under their conditions; failure otherwise |
| FileCreation.Volume.Create | code_162/group/pintos/src/filesys/inode.c:184-209 | a file of zeros of that length whose k-th block is the k-th sector taken for blocks; all its sectors were free and are distinct from each other, from every table and from the inode, and are no more than its blocks and tables; the inode has its magic number; no other sector changes. It succeeds exactly if there is memory, as many sectors are free as its blocks and tables need, the writes of the map go well and the zeroing does not overrun; the overrun, which has then zeroed sector 0, and the crash happen exactly under their conditions; it fails otherwise |
| FileCreation.LargestFile | code_162/group/pintos/src/filesys/inode.c:328-331 | the size check admits exactly the lengths up to eight megabytes; a file that is not empty has the fewest blocks that hold it |
| FileCreation.OverrunCondition | code_162/group/pintos/src/filesys/inode.c:289-299 | the zeroing of the last table runs past its end if and only if the file has more than 12 + 128 + 128 blocks and does not fill that table; 269 blocks is such a file |
| FileCreation.CrashCondition | code_162/group/pintos/src/filesys/free-map.c:50-93 | with the map's file not open, creation crashes if and only if the free sectors run out inside the direct blocks, inside the indirect blocks or inside one group of the doubly indirect ones, after at least one of these blocks has been taken; two blocks with one free sector is such a case |
| FileCreation.Formatting | code_162/group/pintos/src/filesys/free-map.c:116-129 | on every device of at least two sectors, creating the map's file never crashes, has enough sectors exactly if there are more than two, and overruns exactly if the map has more than 268 blocks and does not fill its last table, first at 1097729 sectors |
| FileCreation.FormattingEnds | code_162/group/pintos/src/filesys/free-map.c:116-129 | so, with memory and up to the largest file, formatting ends in success exactly if the device has more than two sectors and it does not overrun |
| FileCreation.TabledLayout | code_162/group/pintos/src/filesys/inode.c:50-98 | tables that list distinct sectors lay out a file: different blocks get different sectors, none of which is read to find another |
| FileCreation.CreateKeepsFiles | code_162/group/pintos/src/filesys/inode.c:184-209 | creating a file leaves the contents and layout of every other file as they were |
| Palloc.Pool.constructor | code_162/group/pintos/src/threads/palloc.c:153-170 | the pool's bitmap lies at its start in the fewest pages that hold a bit for each page, its pages follow up to its end, and all are free |
| Palloc.PageAllocator.constructor | code_162/group/pintos/src/threads/palloc.c:45-62 | all of memory above 1 MB is in the two pools: the user pool has the last pages, half of them rounded down but no more than the limit, and the kernel pool has those before |
| Palloc.PageAllocator.GetMultiple | code_162/group/pintos/src/threads/palloc.c:70-101 | the first group of free pages of the pool, marked used and zeroed if asked, or none exactly if there is none; the other pool is untouched; the panic exactly if it is asked for and there is no group |
| Palloc.PageAllocator.FreeMultiple | code_162/group/pintos/src/threads/palloc.c:117-142 | exactly those pages become free, in the pool they came from, and are overwritten |
| Malloc.Allocator.constructor | code_162/group/pintos/src/threads/malloc.c:71-85 | seven descriptors of 16 to 1024 bytes with empty free lists |
| Malloc.ArenaIsFilled | code_162/group/pintos/src/threads/malloc.c:71-85 | an arena has as many blocks as a page of 4096 bytes has room for after a header of 12 bytes |
| Malloc.Allocator.FindDesc | code_162/group/pintos/src/threads/malloc.c:102-104 | the smallest descriptor that satisfies the request, if one does |
| Malloc.Allocator.Malloc | code_162/group/pintos/src/threads/malloc.c:89-154 | a block that was not in use, leaving the other blocks' places, sizes and bytes: a small one at least as big as requested and, above the least class, less than twice as big; a big one, while the sums stay in range, at least as big and less than a page bigger; or none, for a big request exactly if the fewest pages that hold it and the header are not free in a row |
| Malloc.Allocator.Free | code_162/group/pintos/src/threads/malloc.c:218-264 | the block is no longer in use and its bytes are overwritten; the others keep place, size and bytes; afterwards every arena left has a block in use, so its pages went back exactly when its last block was freed |
| Malloc.Allocator.BlockSize | code_162/group/pintos/src/threads/malloc.c:178-186 | the bytes that belong to the block |
| Malloc.Allocator.Realloc | code_162/group/pintos/src/threads/malloc.c:194-214 | for every 32-bit size: the new block holds the first min(old, new) bytes of the old one, which is given back; the others are as they were; on failure nothing changes; the copy leaves the new block if and only if the size plus the header wraps and the old block has more than the room of one page |
| Malloc.BigEnough | code_162/group/pintos/src/threads/malloc.c:109-118 | the pages of a big block are enough for the request if and only if its size plus the header does not wrap in 32 bits |
| Malloc.BigPagesIs | code_162/group/pintos/src/threads/malloc.c:109-118 | a big request is for the fewest pages that hold it and the header while the sums stay in range; beyond that exactly these sizes are for no page at all, and those that wrap are for one page |
| Malloc.WrappedRequest | code_162/group/pintos/src/threads/malloc.c:109-118 | every request whose sum with the header wraps gets the room of one page if it gets anything |
| Malloc.OverrunIff | code_162/group/pintos/src/threads/malloc.c:194-214 | min(old, new) bytes are more than the new block got if and only if the request wraps and the old block is bigger than the room of one page; two pages resized to 2^32 - 1 bytes is such a case |
| Malloc.LiveDisjoint | code_162/group/pintos/src/threads/malloc.c:284-294 | in every state between calls, no two blocks in use share a byte |
| Malloc.HeadersDisjoint | code_162/group/pintos/src/threads/malloc.c:284-294 | nor does a block in use reach into any arena's header |
| Malloc.BlockInside | code_162/group/pintos/src/threads/malloc.c:266-294 | a block in use lies in the pages of its arena |
| Malloc.FreeAtMost | code_162/group/pintos/src/threads/malloc.c:241-253 | an arena counts all of its blocks free only if they all are on the free list |
| Malloc.PopKeeps | code_162/group/pintos/src/threads/malloc.c:148-151 | handing out the first free block keeps free counts, free lists and the blocks in use in agreement |
| Malloc.PushKeeps | code_162/group/pintos/src/threads/malloc.c:238-242 | so does taking a block back |
| Malloc.CarveKeeps | code_162/group/pintos/src/threads/malloc.c:137-146 | so does making a new arena out of a page that no arena had |
| Malloc.DropKeeps | code_162/group/pintos/src/threads/malloc.c:246-252 | so does giving an arena up once all of its blocks are free |
| Malloc.AllReturned | code_162/group/pintos/src/threads/malloc.c:241-262 | when no block is in use, malloc holds no page: the pages in use are exactly the other callers' |
| Heapsort.Heapify | code_162/group/pintos/src/lib/stdlib.c:96-123 | restores the heap order under a node whose subtrees are heaps, rearranging only those elements |
| Heapsort.FloatDown | code_162/group/pintos/src/lib/stdlib.c:105-121 | swapping with the greater child moves the only violation one level down |
| Heapsort.RootIsGreatest | code_162/group/pintos/src/lib/stdlib.c:146-151 | the root of a heap is no less than any of its elements |
| Heapsort.Sort | code_162/group/pintos/src/lib/stdlib.c:131-152 | for every array and total preorder, a sorted permutation of the original elements |
| Heapsort.BinarySearch | code_162/group/pintos/src/lib/stdlib.c:184-207 | a matching place if and only if the sorted array has a match |
| Printf.Atoi | code_162/group/pintos/src/lib/stdlib.c:9-41 | the loop computes the value of the text, of which `PrintfLaws.AtoiIs` says what it is |
| Printf.BufferFits | code_162/group/pintos/src/lib/stdio.c:475-524 | for every 64-bit value, base, flag and precision, the digits fit in the 64-byte buffer |
| Printf.FormatInteger | code_162/group/pintos/src/lib/stdio.c:469-547 | puts out the text of the conversion, of which `PrintfLaws.TextIs` says what it is |
| Printf.ReversedIsNumeral | code_162/group/pintos/src/lib/stdio.c:504-513 | the digits, produced backwards, are the positional numeral of the value |
| Printf.AtoiUndoesPrint | code_162/group/pintos/src/lib/stdio.c:469-547 | atoi of what %d prints is the value, for every int including INT_MIN and every combination of flags but grouping, width and precision |
| PrintfLaws.DigitsRead | code_162/group/pintos/src/lib/stdio.c:504-513 | in every base up to 16, the digits are a numeral of the value, with letters of the base's case above nine |
| PrintfLaws.GroupedIs | code_162/group/pintos/src/lib/stdio.c:504-513 | grouping puts a comma after every group of the same digits, and none before the first |
| PrintfLaws.TextIs | code_162/group/pintos/src/lib/stdio.c:469-547 | for every base, flags, width and precision: sign, prefix and the numeral, without leading zeros but for those the precision and `#o` ask for, padded exactly to the width with spaces before, spaces after or zeros between as the flags say |
| PrintfLaws.AtoiIs | code_162/group/pintos/src/lib/stdlib.c:9-41 | for white space, an optional sign, decimal digits and then anything that is no digit, atoi gives the number reduced to 32 bits |
| Ustar.StripPrefixes | code_162/group/pintos/src/lib/ustar.c:65-73 | the loop strips prefixes from the name; `UstarLaws.StrippedIs` says what is left |
| Ustar.StrippedIsSafe | code_162/group/pintos/src/lib/ustar.c:56-73 | a stripped name is not empty, not absolute, not ".." and not under ".." |
| Ustar.StrippedTwice | code_162/group/pintos/src/lib/ustar.c:65-73 | stripping is idempotent |
| UstarLaws.OrdinaryStays | code_162/group/pintos/src/lib/ustar.c:56-73 | a name that is not empty, not ".." and has none of the prefixes "/", "./" and "../" is left as it is |
| UstarLaws.PrefixGoes | code_162/group/pintos/src/lib/ustar.c:65-73 | putting any of those prefixes before a name does not change the result |
| UstarLaws.StrippedIs | code_162/group/pintos/src/lib/ustar.c:56-73 | for every name, exactly a chain of those prefixes goes, what is left has none, and it is "." if nothing or ".." is left |
| Ustar.CalculateChksum | code_162/group/pintos/src/lib/ustar.c:36-54 | the sum of the bytes with the checksum field read as spaces |
| Ustar.SumIgnoresField | code_162/group/pintos/src/lib/ustar.c:36-54 | headers that differ only in the checksum field have the same checksum |
| Ustar.ParseOctalField | code_162/group/pintos/src/lib/ustar.c:129-162 | the loop computes the value of the field or rejects it: overflow, a bad character, no digit or no end |
| Ustar.OctalRoundTrip | code_162/group/pintos/src/lib/ustar.c:106-162 | a number printed into an octal field that it fits is read back from it |
| UstarLaws.OctalFieldIff | code_162/group/pintos/src/lib/ustar.c:129-162 | a field is accepted with value v if and only if it begins with one or more octal digits of value v below 2^32 that end in a space or a null byte |
| UstarLaws.ChksumIs | code_162/group/pintos/src/lib/ustar.c:36-54 | the checksum is the sum of all bytes outside its field and eight spaces |
| UstarLaws.HeaderIs | code_162/group/pintos/src/lib/ustar.c:82-118 | every field of a header that is made, at its place in the format |
| Ustar.ChksumAgrees | code_162/group/pintos/src/lib/ustar.c:114-117 | the checksum field of a header that was made holds the header's own checksum |
| Ustar.MakeHeader | code_162/group/pintos/src/lib/ustar.c:82-118 | fills the buffer with the whole 512-byte header, or fails, touching nothing, exactly if the stripped name is longer than 99 |
| Ustar.ParseHeader | code_162/group/pintos/src/lib/ustar.c:181-227 | the entry, the end of the archive, or the first thing that is wrong |
| Ustar.ParseUndoesMake | code_162/group/pintos/src/lib/ustar.c:82-227 | for every name that fits, both types and every int: parsing the header that was made gives the stripped name, the type and the size (0 for a directory), and a negative size is refused as too large |
| UstarLaws.OrdinaryRoundTrip | code_162/group/pintos/src/lib/ustar.c:82-227 | for every ordinary name that fits, parsing the header that was made gives back that very name, type and size |
| UstarLaws.ParseIff | code_162/group/pintos/src/lib/ustar.c:181-227 | a header is taken for an entry if and only if its magic, version, checksum, length of name, type and size are all acceptable, and then under its stripped name |
| UstarLaws.FailsWithFirst | code_162/group/pintos/src/lib/ustar.c:199-220 | a header that is not all zeros is refused with the first of the eight complaints that is true of it, and is accepted if none is |
| UstarLaws.EndIff | code_162/group/pintos/src/lib/ustar.c:190-197 | it is the end of the archive if and only if all of its bytes are zero |
| UstarLaws.CorruptionIsDetected | code_162/group/pintos/src/lib/ustar.c:204-207 | a header that is accepted is refused once any one byte outside its checksum field has changed |
| HashTable.MaskIsRemainder | code_162/group/pintos/src/lib/kernel/hash.c:305-310 | masking with a power of two less one takes the remainder, so the bucket index, also in a rehash, is the hash modulo the bucket count |
| HashTable.TurnOffKeepsFloor | code_162/group/pintos/src/lib/kernel/hash.c:328-340 | clearing the lowest set bit gives zero exactly for powers of two and otherwise keeps the greatest power of two below |
| HashTable.Table.constructor | code_162/group/pintos/src/lib/kernel/hash.c:24-42 | four buckets and no element |
| HashTable.Table.BestBucketCnt | code_162/group/pintos/src/lib/kernel/hash.c:364-372 | the greatest power of two up to half the elements, at least four, found by clearing bits |
| HashTable.Table.Rehash | code_162/group/pintos/src/lib/kernel/hash.c:351-413 | moves every element into its new bucket: the set of elements stays, the bucket count is the best power of two, and there are fewer than four elements per bucket; nothing changes without memory |
| HashTable.Table.Find | code_162/group/pintos/src/lib/kernel/hash.c:131-135 | an equal element if and only if the set has one |
| HashTable.Table.Insert | code_162/group/pintos/src/lib/kernel/hash.c:98-110 | adds the element to the set if and only if it has no equal, which is returned otherwise |
| HashTable.Table.Replace | code_162/group/pintos/src/lib/kernel/hash.c:114-127 | the element takes the place of its equal, which is returned, or is added |
| HashTable.Table.Delete | code_162/group/pintos/src/lib/kernel/hash.c:144-154 | removes and returns the equal element, if there is one |
| HashTable.Table.Counted | code_162/group/pintos/src/lib/kernel/hash.c:415-429 | the count is the number of elements, no two of which are equal |
| HashTable.Iterator.Next | code_162/group/pintos/src/lib/kernel/hash.c:218-235 | the next element in the order of the buckets, or none exactly when all have been visited |
| HashTable.VisitAll | code_162/group/pintos/src/lib/kernel/hash.c:182-235 | iterating from the first to none visits every element exactly once |

## Left out

- BufferCache: refinement is stated for calls that do not overlap; what overlapping calls do is in CacheLocks, CacheData and CacheCoherence.
- CacheData.ActKeeps: writing a block back, and clearing its dirty bit, is one step. What a flush sees of a dirty bit while another thread holds that slot's lock is left open instead.
- LinkedList.List.Splice: the two uses of the code, within one list and between two lists, are two members.
- Scheduler.Kernel.ThreadExit: closing the process's files, `process_exit` and the list of all threads are not modelled.
- Scheduler: the model starts after `thread_start` has returned; creating a thread is a step that makes a new identity ready. The use of `thread_block` by the keyboard and serial queues (devices/intq.c) is left out. Priorities, nice values and load averages are stubs in the code.
- Monitor: the set of locks and conditions is fixed from the start, and a thread exits only while it holds no lock.
- Bitmap.BitSet.constructor: a failed allocation, which the code reports by a null pointer, is not modelled.
- FreeMap.Map.Allocate: writing the map to its own file is an outcome given to the call; the sectors of that file are not modelled.
- FreeMap.Map.Release: writing the map to its own file is not modelled beyond whether the file is open.
- Inode.FileSystem.WriteAt: covers writes inside the current length. Growing a file is left out: the code changes a copy of the inode that it does not write back.
- Inode.FileSystem.ReadAt: the lookup the code makes at the very end of a file, whose answer it discards, is not made.
- FileCreation.Volume.Create: a failed creation keeps the sectors it had taken, as in the code; it is not stated which ones.
- FileCreation.CreateKeepsFiles: the free map's own file, which the code rewrites while allocating, is not among the files.
- Malloc.Allocator.Realloc: where the copy would leave the new block the model stops. Arena headers and free-list links are values apart from the bytes of memory, which is justified by `Malloc.HeadersDisjoint` and `Malloc.LiveDisjoint`. The locks of descriptors and pools are not modelled.
- HashTable.Table.constructor: a failed allocation of the buckets is not modelled.
- HashTable.Table.Rehash: buckets are sequences of elements; their links are those of LinkedList.
- Heapsort.Sort: elements are values that are swapped as a whole, not byte by byte.
- Printf.FormatInteger: the parsing of conversion specifications, strings, and the dispatch on argument sizes are left out; so is the round trip under the grouping flag, whose commas end what atoi reads.
- `list_max`, `list_min`, `bitmap_flip`, `bitmap_count`, `calloc`, `hash_clear`, `hash_destroy`, `hash_apply` and the FNV hash functions.
- Freeing files, directories, paths, system calls, user processes and page directories.
- Device drivers, interrupt tables, boot code, the user library and the homework programs.
