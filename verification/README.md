# Verification of the Pintos kernel's core

A Dafny model of the parts of this Pintos kernel whose correctness is hard to see from the
code, with proofs of what they promise.

- **Reader/writer lock** (`SharedLock`): the lock built on a Mesa monitor, as a state machine
  over its monitor steps, for any number of threads and any interleaving.
- **Scheduler, semaphores and locks** (`Scheduler`, `SchedulerInvariant`, `SchedulerRuns`,
  `SchedulerEffects`, `Donation`, `DonationRuns`, `SchedulerLoops`): the ready list, semaphores with barging, locks
  with nested priority donation, sleeping and priority changes, as a state machine whose steps
  are the sections of kernel code that run with interrupts off.  `SchedulerEffects` says what
  each operation does and what it leaves alone; `SchedulerLoops` has the loops that change the
  state in place.
- **Feedback-queue arithmetic** (`FixedPoint`, `Mlfqs`): load average, recent CPU and
  priorities in 17.14 fixed point.
- **Allocators** (`Bitmap`, `PageAllocator`, `HeapModel`, `Heap`): malloc over palloc over the
  packed bitmap.  `HeapModel` states each call on values and proves its invariant; the class in
  `Heap` does the same in place, with the source's loops.
- **Containers and algorithms** (`LinkedList` with `MergeRuns`, `HashTable` with
  `PowersOfTwo`, `HeapSort`): the intrusive doubly linked list with its stable natural merge
  sort, the chained hash table that rehashes, and heapsort with binary search.
- **64-bit division** (`Arithmetic`): 64-by-64-bit division from a 64-by-32-bit divide.
- **Encodings** (`Printf`, `Ustar`, `CString`, `StackArgs`, `Words`, `PageDirectory`,
  `VirtualAddress`): integers as text, ustar headers (the "ustar Interchange Format" of the pax
  utility in IEEE Std 1003.1-2001), a command line as an argument frame on a user stack, and
  the two-level page directory (section 3.7.6 of the IA-32 manual, volume 3A).

Machine integers are mathematical integers with explicit ranges; where the source's width
matters the wrapping or the range is written out.  In `FixedPoint` each operation requires
that its result fits, so that its callers verify is itself the claim that nothing overflows.
`dafny verify dfyconfig.toml` checks everything.

Where the source's comments and its code differ, the model follows the code:
`bitmap_scan_and_flip` with a count of zero returns START, not 0, and `arena_to_block` returns
block IDX, counted from 0.

Signed overflow, which C leaves undefined, wraps in `Arithmetic`: the negation of the quotient
of the least value by 1, and the product with -1 in `smod64`.

Eight properties that one might expect do not hold of the code.  Each has an exact condition:

- `umod64` and `smod64` return 32 bits, so the remainder is exact for every dividend exactly
  when the divisor's magnitude is at most 2^32 and 2^31 (`Umod64ExactIff`, `Smod64ExactIff`);
  `sdiv64` is exact except for the least value divided by -1 (`Sdiv64ExactIff`).
- `lock_release` takes 0 as the least donation, so a thread that set itself a negative
  priority and keeps another lock can end up above the true maximum
  (`ReleaseCanOverrate`); `ReleaseSetsTrueMaximum` says exactly when it does not.
- `lock_acquire` can go wrong, at two ends of the chain of waiting threads it donates along
  (`AcquireStopsIff` says exactly when).  A thread of lower priority in no priority list, a
  sleeping one say, fails the assertion in `list_update_elem` (`AcquireCanStop`).  A thread that
  has exited is still named by a waiter it released a lock to until that waiter runs again; its
  structure has been freed, and filled with 0xcc or used again, when it is read
  (`AcquireCanReadFreed`).
- The feedback queue's priority is rounded twice, and so one above the formula's
  (`RoundingMatters`) exactly when `RoundsUp` holds of recent_cpu and nice
  (`FormulaRoundsTwice`).
- A new thread's priority is not the one the feedback-queue formula gives
  (`NewThreadStale`); `PrioritiesCurrent` says exactly when a time slice ends with that.
- `pagedir_destroy` frees a page twice that is mapped twice (`SharedFreedTwice`);
  `DestroyFreesOnce` says exactly when it frees none twice, and the methods of `PageDir` keep
  that condition for pages not yet given.
- A block that `malloc` hands out is large enough exactly if the size with the header is at most
  2^32 (`MallocSufficesIff`); among those, a size that wraps when rounded up to pages fails.
- A header made for a regular file of negative size does not parse (`RoundTrip`).

## Model

| member | source | states |
|---|---|---|
| SharedLock.CounterMeansAccess | pintos/src/threads/synch.c:466-514 | In every reachable state, under any interleaving, i is -1 exactly when one thread has exclusive access and none shared; otherwise nobody has exclusive access and i is the number of shared holders |
| SharedLock.WriterAlone | pintos/src/threads/synch.c:475-514 | A thread with exclusive access is the only one with access |
| SharedLock.NoLostWakeUp | pintos/src/threads/synch.c:401-456 | While i is 0 and threads are parked, some signalled thread is on its way to test again or somebody is about to signal; a parked reader means i is -1 or a broadcast is under way |
| SharedLock.BehaviourInv | pintos/src/threads/synch.c:401-514 | Every state of every run keeps the whole invariant: inner lock held by the one thread in the monitor, condition list with each parked thread once, counter, wake-ups |
| SharedLock.StepInv | pintos/src/threads/synch.c:401-514 | Each monitor step of each thread keeps that invariant |
| SharedLock.QuietRunsEnd | pintos/src/threads/synch.c:475-514 | Without new calls, a run is no longer than the pending work at its start |
| SharedLock.SettledParksNobodyInVain | pintos/src/threads/synch.c:475-514 | When no step is left, every parked thread is parked because the counter rules it out |
| SharedLock.LeftAloneSettles | pintos/src/threads/synch.c:401-514 | From any reachable state, without new calls, at most N(8 + 5N) steps follow, and then nobody is parked on a lock it could have |
| SharedLock.PhasesFollow | pintos/src/threads/synch.c:475-514 | In each step every thread stays in its phase or goes on to the next: outside, acquiring, granted, inside, releasing, finishing; the mode stays the one it called for |
| SharedLock.GetsWhatItCalledFor | pintos/src/threads/synch.c:475-493 | In every run a thread that calls for shared or exclusive access, when it next has access, has it in that mode |
| SharedLock.AcquiresAlone | pintos/src/threads/synch.c:475-493 | Run alone, a shared acquire with i at least 0 ends with access and i one larger, an exclusive one with i 0 ends with access and i -1, and any other ends parked with i the same |
| SharedLock.ReleaseCounts | pintos/src/threads/synch.c:496-514 | A shared release takes one from i, and signals exactly if that leaves 0; an exclusive one sets i to 0 and broadcasts |
| SharedLock.ReleaseWakes | pintos/src/threads/synch.c:425-456 | A signal wakes one waiter if there is one; a broadcast goes on until there is none |
| SchedulerRuns.RunInv | pintos/src/threads/thread.c:351-536 | Every state of every run keeps the kernel invariant, whatever the threads call and whenever the timer ticks |
| SchedulerRuns.StepInv | pintos/src/threads/synch.c:67-338 | Each action keeps the kernel invariant, and leaves the same thread running or the best of those that can run |
| SchedulerRuns.ListsInOrder | pintos/src/threads/thread.c:351-417 | The ready list and every list of waiters is ordered by falling priority, equal ones by time of arrival; a thread is in the list its thread_pl names and in no other |
| SchedulerRuns.PicksTheBest | pintos/src/threads/thread.c:477-494 | In every run, when an action leaves another thread running, or the thread yields, sleeps, idles or exits, the thread that then runs has a higher priority than every runnable one, or the same and was in line before it; the idle thread runs only if no other can |
| SchedulerRuns.Preempts | pintos/src/threads/thread.c:402-417 | In every run, after thread_create, a wake-up by sema_up or lock_release with interrupts on, thread_set_priority, or thread_set_nice, no runnable thread has a higher priority than the one that runs |
| SchedulerRuns.NobodyIsLost | pintos/src/threads/thread.c:351-494 | Every living thread runs, or is runnable and in the ready list, or asleep, or in the list of the semaphore it is downing |
| SchedulerRuns.SemaphoresKeepFaith | pintos/src/threads/synch.c:67-133 | A semaphore's value is initial + ups - completed downs; while threads wait it is at most the number of woken threads still to test, so an available unit always has a taker that can run |
| SchedulerEffects.UnitsConserved | pintos/src/threads/synch.c:67-133 | In every run a semaphore's value is what it started with, plus one for each action that upped it, minus one for each down, try or acquire that found it positive; its counts of ups and downs are those numbers |
| SchedulerEffects.DownEffect | pintos/src/threads/synch.c:67-85 | sema_down takes a unit if there is one, and then holds the lock if it is a lock's; otherwise the thread joins the waiters, blocked, and the value stays; no other thread or semaphore changes |
| SchedulerEffects.TryEffect | pintos/src/threads/synch.c:93-109 | sema_try_down takes a unit if there is one, and otherwise changes nothing |
| SchedulerEffects.UpEffect | pintos/src/threads/synch.c:117-133 | sema_up adds a unit, also when nobody waits; if threads wait, the one that precedes all others can run and is off the list; nothing else changes |
| SchedulerEffects.AcquireEffect | pintos/src/threads/synch.c:238-261 | lock_acquire of a free lock makes the thread its holder; of a held one, the thread waits for the holder, and threads along the chain of waiting may have been raised to its priority; nothing else changes |
| SchedulerEffects.ReleaseEffect | pintos/src/threads/synch.c:310-338 | lock_release gives up that lock and no other, adds a unit and wakes the first waiter; the thread counts as donated to exactly if it stays above its own priority |
| SchedulerEffects.CreateEffect | pintos/src/threads/thread.c:286-325 | thread_create adds one thread that can run, of the priority asked for, or the default under the feedback queue |
| SchedulerEffects.SetPriorityEffect | pintos/src/threads/thread.c:514-536 | thread_set_priority sets the thread's own priority, which takes effect at once unless at least as much is donated |
| SchedulerEffects.SetNiceEffect | pintos/src/threads/thread.c:573-598 | thread_set_nice changes that thread's priority and nothing else |
| SchedulerEffects.RecalculateEffect | pintos/src/threads/thread.c:566-575 | A recalculated priority changes that thread and its place alone |
| SchedulerEffects.SleepEffect | pintos/src/threads/thread.c:371-376 | thread_sleep puts the thread last on the sleeping list, blocked |
| SchedulerEffects.ExitEffect | pintos/src/threads/thread.c:455-473 | thread_exit ends that thread and leaves all others |
| SchedulerEffects.YieldSwitches | pintos/src/threads/thread.c:477-494 | thread_yield changes nothing but who runs |
| SchedulerEffects.NoNeedlessSwitch | pintos/src/threads/thread.c:402-417 | In every run the CPU changes hands only if the thread gives it up or has to wait, or to a thread of higher priority in an action that may preempt, with interrupts on |
| SchedulerRuns.LocksHaveOneHolder | pintos/src/threads/synch.c:216-338 | A lock is among a thread's acquired locks, once, exactly if that thread is its holder; its semaphore is 1 exactly while it has none |
| SchedulerRuns.DonationOnlyRaises | pintos/src/threads/synch.c:196-338 | Without the feedback queue, priority is never below original_priority and equals it unless donated |
| Donation.NextDonationIsMaximum | pintos/src/threads/synch.c:288-303 | Looking at the first waiter of each lock finds the largest priority of all waiters, or PRI_MIN |
| Donation.ReleaseSetsTrueMaximum | pintos/src/threads/synch.c:310-338 | In the state lock_release leaves, the thread's priority is the maximum of its own and of all waiters on the locks it still holds, if and only if it holds none, or its own priority or some such waiter's was at least PRI_MIN before |
| Donation.ReleaseCanOverrate | pintos/src/threads/synch.c:310-338 | A run whose last step is a lock_release that leaves a priority that is nobody's |
| Donation.AcquireDonates | pintos/src/threads/synch.c:196-261 | After a lock_acquire that waits, and did not go wrong, the holder is at least at the acquirer's priority and nobody is lower than before; at most nine are raised, and unless all nine were, whoever a raised thread waits for is at that priority too |
| Donation.AcquireStopsIff | pintos/src/threads/synch.c:196-261 | In every reachable state, lock_acquire goes wrong if and only if the feedback queue is off and the chain of waiting_for_tlock from the holder comes, within nine threads, through linked ones below the caller's priority and none twice, to a thread that has exited, or to one below that priority in no priority list; the holder itself has not exited |
| DonationRuns.AcquireCanStop | pintos/src/threads/synch.c:196-261 | A run to a state where the holder is asleep and lock_acquire fails the assertion |
| DonationRuns.AcquireCanReadFreed | pintos/src/threads/synch.c:196-261 | A run to a state where the holder waits for a thread that has exited, with a higher priority than the caller's, so that lock_acquire reads a freed structure and meets no unlinked thread |
| SchedulerInvariant.DonateReaches | pintos/src/threads/synch.c:196-213 | A donation reaches the holder and passes along the chain from each thread raised, to the depth of nine |
| SchedulerInvariant.DonateFrame | pintos/src/threads/synch.c:196-213 | A donation changes nothing but priorities, which it only raises to the donor's, and the places of the threads raised |
| SchedulerInvariant.DonateInv | pintos/src/threads/synch.c:196-213 | A donation, with its moves within ready and waiter lists, keeps the kernel invariant |
| SchedulerInvariant.RepositionInv | pintos/src/lib/kernel/list.c:491-498 | A priority change with list_update_elem keeps every list in order |
| SchedulerInvariant.DownPassInv | pintos/src/threads/synch.c:67-85 | A pass of the loop in sema_down keeps the kernel invariant |
| SchedulerInvariant.UpInv | pintos/src/threads/synch.c:117-133 | sema_up keeps the kernel invariant |
| SchedulerInvariant.AcquireInv | pintos/src/threads/synch.c:238-261 | lock_acquire keeps the kernel invariant |
| SchedulerInvariant.ReleaseInv | pintos/src/threads/synch.c:310-338 | lock_release keeps the kernel invariant |
| SchedulerInvariant.YieldInv | pintos/src/threads/thread.c:477-494 | thread_yield keeps the kernel invariant and runs the best of all threads that can run, itself included |
| SchedulerInvariant.UnblockCore | pintos/src/threads/thread.c:402-417 | thread_unblock puts a loose thread in its place in the ready list and keeps every list and record in order; the same thread runs on, or the best one |
| SchedulerInvariant.SetPriorityInv | pintos/src/threads/thread.c:514-536 | thread_set_priority keeps the kernel invariant |
| SchedulerInvariant.SetNiceInv | pintos/src/threads/thread.c:573-598 | thread_set_nice keeps the kernel invariant, and leaves a thread running that none outranks |
| SchedulerInvariant.SleepInv | pintos/src/threads/thread.c:371-376 | thread_sleep keeps the kernel invariant |
| SchedulerInvariant.WakeExpiredInv | pintos/src/threads/thread.c:351-369 | thread_update_timers keeps the kernel invariant |
| SchedulerInvariant.WakesExactly | pintos/src/threads/thread.c:351-369 | The sleeping list loses exactly the sleepers that are due, in order; each of those is runnable and in the ready list, and no other thread changes |
| SchedulerInvariant.CreateInv | pintos/src/threads/thread.c:286-325 | thread_create keeps the kernel invariant |
| SchedulerInvariant.RecalculateInv | pintos/src/threads/thread.c:566-575 | thread_calculate_priority's change of priority and place keeps the kernel invariant |
| SchedulerInvariant.ExitInv | pintos/src/threads/thread.c:455-473 | thread_exit keeps the kernel invariant |
| Scheduler.InsertPosSplits | pintos/src/lib/kernel/list.c:445-459 | list_insert_ordered with thread_cmp puts a thread after all of at least its priority and before all of lower |
| SchedulerLoops.Kernel.InsertionPoint | pintos/src/lib/kernel/list.c:445-459 | The scan for the insertion point stops where that split is |
| SchedulerLoops.Kernel.LockDonate | pintos/src/threads/synch.c:196-213 | The loop up the chain of holders has the effect of the donation that the results above are about, and goes wrong where it does |
| SchedulerLoops.Kernel.NextPotentialDonation | pintos/src/threads/synch.c:288-303 | The loop over the locks held computes the maximum of NextDonationIsMaximum |
| SchedulerLoops.Kernel.UpdateTimers | pintos/src/threads/thread.c:351-369 | The loop over the sleeping list takes exactly the sleepers that are due off it and makes exactly those runnable |
| FixedPoint.RoundTrip | pintos/src/threads/fixed-point.h:11-15 | An integer survives conversion to fixed point and back, by either rounding |
| FixedPoint.NearestIsNear | pintos/src/threads/fixed-point.h:12-14 | Rounding to nearest is off by at most one half |
| FixedPoint.MultInt | pintos/src/threads/fixed-point.h:22-23 | Multiplying by a converted integer is exact |
| FixedPoint.DivInt | pintos/src/threads/fixed-point.h:24-25 | Dividing by a converted positive integer is C's integer division of the representation |
| Mlfqs.LoadAvg | pintos/src/threads/thread.c:615-623 | The new load average is 59/60 of the old plus ready/60, short of the exact value by less than a stated bound; with at most N threads (N up to 545) it stays within [0, N], and no operation leaves 32 bits |
| Mlfqs.LoadGrows | pintos/src/threads/thread.c:615-623 | Each further ready thread adds at least 273/16384 |
| Mlfqs.Coefficient | pintos/src/threads/thread.c:624-625 | The decay coefficient is 2 load_avg / (2 load_avg + 1), rounded down, at most 2N/(2N+1), so below one |
| Mlfqs.Decayed | pintos/src/threads/thread.c:637-644 | At the end of a second recent_cpu is back within 240N + 20, from within 120(2N + 1), without overflow |
| Mlfqs.Reprioritised | pintos/src/threads/thread.c:549-571 | The priority is 63 - recent_cpu/4 - 2 nice, an exact fraction, rounded toward zero and clamped, or one more exactly when rounding twice matters; without overflow |
| Mlfqs.FormulaRoundsTwice | pintos/src/threads/thread.c:549-571 | For all recent_cpu and nice, rounding the quarter first gives the exact priority, or one more if and only if the quarter is just above a whole number and leaves a positive priority |
| Mlfqs.RoundingMatters | pintos/src/threads/thread.c:549-571 | With the least positive recent_cpu it gives 63 for 62 |
| Mlfqs.Updated | pintos/src/threads/thread.c:648-654 | A thread marked recently_up gets thread_calculate_priority's priority and is unmarked; another keeps its own |
| Mlfqs.Ticked | pintos/src/threads/thread.c:229-256 | What a tick makes of one thread: recent_cpu, priority and mark, exactly; and that it keeps its bounds |
| Mlfqs.After | pintos/src/threads/thread.c:207-256 | A tick changes the load average and coefficient exactly at the end of a second, by the formulas with the running thread counted, and each thread as Ticked says; it keeps the load average in [0, N], the coefficient below one and every recent_cpu within its bound |
| Mlfqs.PrioritiesCurrent | pintos/src/threads/thread.c:250-255 | At the end of a time slice a thread's priority is the one thread_calculate_priority gives, if and only if it is not as init_thread left it before the tick, or runs in the tick, or a second ends |
| Mlfqs.NewThreadStale | pintos/src/threads/thread.c:743-747 | A new thread's priority is not the one thread_calculate_priority gives |
| Mlfqs.Mlfqs.Tick | pintos/src/threads/thread.c:207-256 | thread_tick, with its loops over all threads, takes the state to After's and so keeps all bounds in every run |
| Mlfqs.Mlfqs.DecayAll | pintos/src/threads/thread.c:240-243 | Every thread's recent_cpu is decayed |
| Mlfqs.Mlfqs.UpdateAll | pintos/src/threads/thread.c:250-255 | Every marked thread's priority is recomputed |
| Mlfqs.Mlfqs.SetNice | pintos/src/threads/thread.c:592-598 | The thread's nice and priority change, the bounds hold |
| Mlfqs.Mlfqs.Create | pintos/src/threads/thread.c:729-753 | A new thread starts within the bounds |
| Mlfqs.Mlfqs.GetRecentCpu | pintos/src/threads/thread.c:629-633 | 100 times recent_cpu, off by at most 50, without overflow |
| Mlfqs.Mlfqs.GetLoadAvg | pintos/src/threads/thread.c:608-612 | 100 times the load average, off by at most 50, between 0 and 100 N |
| Arithmetic.Divl | pintos/src/lib/arithmetic.c:25-37 | The divide instruction, on dividends it does not trap on |
| Arithmetic.Nlz | pintos/src/lib/arithmetic.c:41-73 | The number of leading zero bits |
| Arithmetic.LeadingZerosNormalize | pintos/src/lib/arithmetic.c:41-73 | Shifting by it brings the top bit to the top, and no further |
| Arithmetic.EstimateWithinOne | pintos/src/lib/arithmetic.c:84-125 | The quotient estimate from a normalised divisor is the true quotient or one more |
| Arithmetic.Estimate | pintos/src/lib/arithmetic.c:120-123 | The estimate as the machine computes it, without a trap or a wrong wrap |
| Arithmetic.Udiv64 | pintos/src/lib/arithmetic.c:77-127 | Exactly the floor of n/d, for all 64-bit n and nonzero d |
| Arithmetic.Umod64 | pintos/src/lib/arithmetic.c:131-135 | The low 32 bits of the remainder |
| Arithmetic.Umod64ExactIff | pintos/src/lib/arithmetic.c:131-135 | The remainder is exact for all n if and only if d is at most 2^32 |
| Arithmetic.Sdiv64ExactIff | pintos/src/lib/arithmetic.c:139-146 | The quotient truncated toward zero, if and only if the operands are not the least value and -1 |
| Arithmetic.Smod64 | pintos/src/lib/arithmetic.c:150-154 | The remainder of truncating division, as 32 signed bits |
| Arithmetic.Smod64ExactIff | pintos/src/lib/arithmetic.c:150-154 | The remainder is exact for all n if and only if the magnitude of d is at most 2^31 |
| Bitmap.WordUpdate | pintos/src/lib/kernel/bitmap.c:42-47 | Setting or clearing one bit of a word leaves the others |
| Bitmap.FirstRun | pintos/src/lib/kernel/bitmap.c:314-329 | The least index from START on that begins a run of CNT bits of VALUE, or none exactly if there is none |
| Bitmap.Bitmap.Test | pintos/src/lib/kernel/bitmap.c:216-222 | The bit of the sequence the words stand for |
| Bitmap.Bitmap.Mark | pintos/src/lib/kernel/bitmap.c:175-185 | That bit becomes true, no other changes |
| Bitmap.Bitmap.Reset | pintos/src/lib/kernel/bitmap.c:188-198 | That bit becomes false, no other changes |
| Bitmap.Bitmap.SetMultiple | pintos/src/lib/kernel/bitmap.c:236-247 | Exactly CNT bits from START on become VALUE |
| Bitmap.Bitmap.Contains | pintos/src/lib/kernel/bitmap.c:269-282 | True exactly if some bit in the range has VALUE |
| Bitmap.Bitmap.Scan | pintos/src/lib/kernel/bitmap.c:314-329 | The first run, or an error exactly if there is none |
| Bitmap.Bitmap.ScanAndFlip | pintos/src/lib/kernel/bitmap.c:338-345 | As bitmap_scan, and exactly that run is flipped |
| PageAllocator.Pool.constructor | pintos/src/threads/palloc.c:153-170 | The pool's pages follow those of its own bitmap, all free |
| PageAllocator.Pool.HoldsIff | pintos/src/threads/palloc.c:174-182 | A page is from a pool exactly if it lies between the pool's ends |
| PageAllocator.PageAllocator.constructor | pintos/src/threads/palloc.c:45-62 | Free memory is split: the user pool gets half the pages, but at most the limit, the kernel pool the rest, each after its bitmap; they share no page |
| PageAllocator.PageAllocator.PoolsApart | pintos/src/threads/palloc.c:127-132 | No page belongs to both pools |
| PageAllocator.PageAllocator.GetMultiple | pintos/src/threads/palloc.c:70-101 | The first run of free pages of that pool, now in use and cleared if PAL_ZERO asks for it, or null and no change exactly if there is none; a panic exactly if PAL_ASSERT was set then; the other pool is untouched |
| PageAllocator.PageAllocator.FreeMultiple | pintos/src/threads/palloc.c:117-142 | Exactly those pages become free and are filled with 0xcc, in the pool they came from |
| HeapModel.MallocInv | pintos/src/threads/malloc.c:89-154 | malloc keeps the heap invariant, and either returns null and changes nothing or adds to the live blocks one that was not live |
| HeapModel.MallocFails | pintos/src/threads/malloc.c:89-135 | malloc of a positive size fails exactly if it needs a run of pages that is not there, or the page count wraps to 0 |
| HeapModel.MallocTakes | pintos/src/threads/malloc.c:89-154 | The block comes off the free list of the smallest descriptor that fits, or from the first free page, or for a big one is the first run of pages that holds it |
| HeapModel.FreeInv | pintos/src/threads/malloc.c:218-264 | free keeps the heap invariant and takes exactly that block out of the live ones |
| HeapModel.ReallocInv | pintos/src/threads/malloc.c:194-214 | realloc keeps the heap invariant; it moves the block, or frees it for size 0, or fails and changes nothing |
| HeapModel.ReallocFails | pintos/src/threads/malloc.c:194-214 | realloc to a positive size fails if and only if there is no free block and not the pages for one; of a null pointer it is malloc, to size 0 free |
| HeapModel.ReallocCopies | pintos/src/threads/malloc.c:178-209 | What realloc copies fits both blocks and holds all of the smaller request |
| HeapModel.BlocksConserved | pintos/src/threads/malloc.c:89-264 | After any calls, page requests of others among them, every block of an arena is on its descriptor's free list, once, or live; free_cnt counts the former; some block is live |
| HeapModel.LiveBlocks | pintos/src/threads/malloc.c:89-294 | After any calls, page requests of others among them, live blocks are as large as asked for, apart from each other and from every arena header, in pages marked used |
| HeapModel.FreeingAllRestores | pintos/src/threads/malloc.c:89-264 | Calls that begin and end with nothing live leave the arenas and the free lists as they were, and the page bitmap too, exactly if the other clients hold the same pages |
| HeapModel.LeadsInv | pintos/src/threads/malloc.c:89-264 | Any sequence of calls, those of other clients for pages included, keeps the invariant; without those, the pages of other clients stay as they are |
| HeapModel.PerformInv | pintos/src/threads/malloc.c:89-264 | malloc, free and realloc leave the pages of other clients, and their requests leave the heap; each keeps the invariant |
| HeapModel.Fit | pintos/src/threads/malloc.c:100-105 | The smallest descriptor whose blocks are large enough, or none exactly if none is |
| HeapModel.PagesSufficeIff | pintos/src/threads/malloc.c:106-112 | The page count, in 32-bit arithmetic, is enough for the block and its header if and only if the sum with rounding does not wrap; otherwise it is 0, or 1 if and only if size and header alone exceed 2^32 |
| HeapModel.MallocSufficesIff | pintos/src/threads/malloc.c:89-122 | For every state and size, a block that malloc hands out is as large as asked for, and the invariant is kept, if and only if size and header are at most 2^32 |
| HeapModel.BlockInPage | pintos/src/threads/malloc.c:285-294 | A block lies in its arena's page, after the header, and rounding down finds the arena |
| Heap.MallocInit | pintos/src/threads/malloc.c:71-85 | Seven descriptors, of block sizes 16 to 1024, with as many blocks to an arena as fit |
| Heap.Heap.Malloc | pintos/src/threads/malloc.c:89-154 | In place, the effect that the results on malloc are about, for every size it serves properly, null exactly for size 0 or without memory; the user pool and all bytes are untouched |
| Heap.Heap.FindDesc | pintos/src/threads/malloc.c:102-105 | The loop over the descriptors finds the smallest that fits |
| Heap.Heap.MakeArena | pintos/src/threads/malloc.c:125-146 | A page becomes an arena and all its blocks join the free list, or nothing changes |
| Heap.Heap.AddBlocks | pintos/src/threads/malloc.c:141-145 | The loop appends every block of the arena, in order |
| Heap.Heap.Free | pintos/src/threads/malloc.c:218-264 | In place, the effect that the results on free are about; every block still live keeps its bytes |
| Heap.Heap.FreeSmall | pintos/src/threads/malloc.c:227-256 | The block is filled with 0xcc and goes back, and a wholly free arena with it, also filled |
| Heap.Heap.RemoveBlocks | pintos/src/threads/malloc.c:247-251 | The loop takes exactly that arena's blocks off the free list |
| Heap.Heap.Realloc | pintos/src/threads/malloc.c:194-214 | In place, the effect that the results on realloc are about, null exactly for size 0 or without memory; the new block starts with the bytes of the old, as many as both requests cover, and every other live block keeps its bytes |
| Heap.Heap.CopyBlock | pintos/src/threads/malloc.c:205-209 | The copy goes into the new block alone |
| Heap.Heap.BlockSizeOf | pintos/src/threads/malloc.c:178-186 | All the bytes a live block can hold |
| LinkedList.List.Insert | pintos/src/lib/kernel/list.c:168-178 | The element is linked in just there, both ways |
| LinkedList.List.Remove | pintos/src/lib/kernel/list.c:248-255 | The element is unlinked, its successor returned |
| LinkedList.List.Splice | pintos/src/lib/kernel/list.c:183-204 | A range moves to another place in the same list |
| LinkedList.List.SpliceFrom | pintos/src/lib/kernel/list.c:183-204 | A range moves to another list; both stay well linked |
| LinkedList.List.Reverse | pintos/src/lib/kernel/list.c:325-337 | The elements are in reverse order, well linked |
| LinkedList.List.InsertOrdered | pintos/src/lib/kernel/list.c:445-459 | The element goes before the first it is less than, and the list stays sorted |
| LinkedList.List.UpdateElem | pintos/src/lib/kernel/list.c:491-498 | The element moves to its new place, after those it compares equal to, and the list is sorted |
| LinkedList.List.FindEndOfRun | pintos/src/lib/kernel/list.c:357-372 | The end of the maximal nondecreasing run |
| LinkedList.List.InplaceMerge | pintos/src/lib/kernel/list.c:379-399 | Two adjacent sorted ranges become one, permuted within and stably; nothing else moves |
| LinkedList.List.Pass | pintos/src/lib/kernel/list.c:413-435 | A pass leaves at most half the runs, rounded up, and counts that many |
| LinkedList.List.Sort | pintos/src/lib/kernel/list.c:404-440 | For any strict weak order: a well-linked, sorted, stable permutation; it terminates |
| MergeRuns.StableSortUnique | pintos/src/lib/kernel/list.c:404-440 | There is only one stable sorted permutation, so the result is determined |
| HashTable.Hash.Find | pintos/src/lib/kernel/hash.c:131-135 | The element the map has for that key, or none |
| HashTable.Hash.FindElem | pintos/src/lib/kernel/hash.c:314-326 | Finds an equal element in its bucket exactly if the table has one |
| HashTable.Hash.Insert | pintos/src/lib/kernel/hash.c:98-110 | Adds the element unless its key is there, in which case that element is returned; whether or not rehashing gets memory |
| HashTable.Hash.Replace | pintos/src/lib/kernel/hash.c:114-127 | Maps the key to the element and returns the one before |
| HashTable.Hash.Delete | pintos/src/lib/kernel/hash.c:144-154 | Removes the key and returns its element |
| HashTable.Hash.Rehash | pintos/src/lib/kernel/hash.c:351-413 | The map is unchanged; with memory, the number of buckets is the greatest power of two not above half the elements, at least four; without, nothing changes |
| HashTable.Hash.MoveAll | pintos/src/lib/kernel/hash.c:387-410 | Every element ends up in the new bucket of its hash |
| HashTable.BucketIsRemainder | pintos/src/lib/kernel/hash.c:305-310 | Masking the hash takes its remainder by the number of buckets |
| HashTable.EachOnce | pintos/src/lib/kernel/hash.c:199-235 | The buckets hold each element of the map once, and elem_cnt of them |
| HashTable.HashIterator.Next | pintos/src/lib/kernel/hash.c:218-235 | The next element in order, or null after the last |
| HashTable.VisitAll | pintos/src/lib/kernel/hash.c:184-235 | hash_first and hash_next visit each element exactly once |
| PowersOfTwo.TurnOffKeepsHigh | pintos/src/lib/kernel/hash.c:328-340 | Turning off the least bit gives zero exactly for a power of two and otherwise keeps the highest bit |
| PowersOfTwo.RoundDownToPower | pintos/src/lib/kernel/hash.c:371-372 | The loop ends at the greatest power of two not above the start |
| HeapSort.FloatDown | pintos/src/lib/stdlib.c:96-123 | Swapping with the largest child keeps the heap but for the child's place |
| HeapSort.Heapify | pintos/src/lib/stdlib.c:96-123 | The heap holds from I on; the elements are permuted, those outside untouched |
| HeapSort.RootLargest | pintos/src/lib/stdlib.c:146-151 | The root of a heap is its largest element |
| HeapSort.Sort | pintos/src/lib/stdlib.c:131-152 | A sorted permutation, for any total preorder |
| HeapSort.BinarySearch | pintos/src/lib/stdlib.c:184-207 | On a sorted array, finds an equal element exactly if there is one |
| Printf.FormatInteger | pintos/src/lib/stdio.c:469-547 | For every base, flag, width and precision: padding, sign, prefix, zeros and digits in their places; the 64-byte buffer never overflows |
| Printf.BufferedValue | pintos/src/lib/stdio.c:501-524 | The numeral reads back as the value, grouping commas and leading zeros aside |
| Printf.RenderedWidth | pintos/src/lib/stdio.c:526-546 | The text fills the field, and is longer only when its contents are or when padded on both sides |
| Printf.ReadsBack | pintos/src/lib/stdio.c:469-547 | The whole text reads back as the number and its sign, whatever the flags, width and precision |
| Printf.Aligned | pintos/src/lib/stdio.c:484-546 | Padding is on the side the flags ask for; a plus, a space and 0x are shown exactly where asked for |
| Printf.CommaPlaces | pintos/src/lib/stdio.c:505-513 | With grouping a comma stands after every group of digits from the right, and nowhere else |
| Printf.BufferedFigures | pintos/src/lib/stdio.c:515-524 | At least as many figures as the precision, and in octal with the # flag a zero in front |
| Ustar.StripPrefixes | pintos/src/lib/ustar.c:65-73 | The name after the components that are empty, "." or "..", each with its slash, that it starts with, and that start it no longer; or "." |
| Ustar.Stripped | pintos/src/lib/ustar.c:65-73 | The stripped name is not empty, not "..", and starts with none of "/", "./" and "../" |
| Ustar.StripsExactly | pintos/src/lib/ustar.c:65-73 | Whatever follows such components and does not start with one is what is left, "." for nothing or ".."; a name that starts with none is kept |
| Ustar.StripTwice | pintos/src/lib/ustar.c:65-73 | Stripping twice is stripping once |
| Ustar.PrintsOctal | pintos/src/lib/stdio.c:469-547 | A zero-padded octal conversion prints exactly the fixed-width octal numeral |
| Ustar.OctalRoundTrip | pintos/src/lib/ustar.c:129-162 | Parsing an octal field printed so gives back the value |
| Ustar.SumSame | pintos/src/lib/ustar.c:36-54 | The checksum does not depend on the checksum field |
| Ustar.CalculateChksum | pintos/src/lib/ustar.c:36-54 | The sum of the bytes, the checksum field as spaces |
| Ustar.ChecksumIs | pintos/src/lib/ustar.c:36-54 | The sum of the bytes before and after the field plus eight spaces |
| Ustar.MakeHeader | pintos/src/lib/ustar.c:82-118 | Writes the header, or fails and writes nothing exactly if the stripped name has more than 99 characters |
| Ustar.HeaderReads | pintos/src/lib/ustar.c:98-116 | Every field of a header made here, read at the offset of the format: name, mode, owner, group, size, time, checksum, type, magic, version, user and group name, and nulls elsewhere |
| Ustar.ParseOctalField | pintos/src/lib/ustar.c:129-162 | Gives v exactly if the field starts with one or more octal digits for v and then a space or null, and v is within 32 bits; otherwise an error |
| Ustar.OctalValueIff | pintos/src/lib/ustar.c:129-162 | The same, of the function the parser uses |
| Ustar.ParseHeader | pintos/src/lib/ustar.c:181-227 | The entry, the end of the archive, or the first error in the source's order |
| Ustar.ParseEntryIff | pintos/src/lib/ustar.c:181-227 | A header is accepted, as that entry, if and only if magic, version, checksum, name, type and size are as the format says |
| Ustar.RoundTrip | pintos/src/lib/ustar.c:82-227 | A header made here parses to the stripped name, the type, and the size or 0 for a directory; a regular file of negative size is refused |
| Ustar.OneByteChanged | pintos/src/lib/ustar.c:204-207 | A valid header with any one byte outside the checksum field changed is refused |
| CString.Strnlen | pintos/src/lib/string.c:306-314 | The length of the string, or the limit if that is less |
| StackArgs.StrtokR | pintos/src/lib/string.c:234-275 | The first word, now null-terminated in place, and the rest of the words from the saved position on; null exactly if there is none |
| StackArgs.WordsAreWords | pintos/src/lib/string.c:248-266 | Words are not empty and hold no delimiter |
| StackArgs.WordsKeep | pintos/src/lib/string.c:248-274 | The words hold all characters that are no delimiters, in order |
| StackArgs.WordsSplit | pintos/src/lib/string.c:248-274 | A line is split exactly at its blanks: a word ends at a blank, and what has none is one word |
| StackArgs.Stack.Push | pintos/src/userprog/process.c:660-668 | The bytes are below what was there, which stays |
| StackArgs.Stack.ParseCmdLn | pintos/src/userprog/process.c:672-685 | Each word of the command line is pushed with its terminator, and counted |
| StackArgs.Stack.PushPointers | pintos/src/userprog/process.c:647-652 | The loop pushes the address of each argument, last first |
| StackArgs.Stack.PushStackArgs | pintos/src/userprog/process.c:639-657 | Leaves exactly the frame for the file name and the words |
| StackArgs.FrameDecodes | pintos/src/userprog/process.c:639-657 | The frame decodes as C arguments: argc, argv with argv[i] pointing to a copy of argument i with a null after it, argv[argc] null, a return address, word alignment |
| PageDirectory.DecodeCreated | pintos/src/threads/pte.h:70-104 | An entry made for a page decodes to that page, present, writable as asked, neither accessed nor dirty |
| PageDirectory.DecodeChanged | pintos/src/threads/pte.h:61-68 | Changing one flag of an entry leaves its other flags and its address |
| PageDirectory.StoreFlat | pintos/src/userprog/pagedir.c:83-85 | Writing one entry changes the flat map at that page and nowhere else |
| PageDirectory.AddTableFlat | pintos/src/userprog/pagedir.c:66-81 | A new page table changes no mapping |
| PageDirectory.PageDir.LookupPage | pintos/src/userprog/pagedir.c:56-86 | Whether there is a page table, made if asked for and possible; no mapping changes, and an unused page for the table keeps the directory clean |
| PageDirectory.PageDir.SetPage | pintos/src/userprog/pagedir.c:98-119 | Maps that page and no other, or fails and changes nothing exactly if a table is needed and there is no memory; unused pages keep the directory clean |
| PageDirectory.PageDir.GetPage | pintos/src/userprog/pagedir.c:125-137 | The page mapped there with the offset in it, or none |
| PageDirectory.PageDir.ClearPage | pintos/src/userprog/pagedir.c:143-157 | The page is no longer present, its other bits and all other pages stay |
| PageDirectory.PageDir.IsSet | pintos/src/userprog/pagedir.c:163-197 | The dirty or accessed bit of the page |
| PageDirectory.PageDir.SetBit | pintos/src/userprog/pagedir.c:172-215 | That bit of that page, if it has a page table, and nothing else |
| PageDirectory.PageDir.Destroy | pintos/src/userprog/pagedir.c:27-48 | Frees the mapped pages and the page tables in order, then the directory; none twice if and only if the directory is clean |
| PageDirectory.AllFreed | pintos/src/userprog/pagedir.c:36-46 | A page is freed by the loops exactly if it is mapped or is a page table |
| PageDirectory.DestroyFreesOnce | pintos/src/userprog/pagedir.c:27-48 | pagedir_destroy frees every mapped page, every page table and the directory, and nothing else; none twice if and only if no page is given by two entries and none is the directory |
| PageDirectory.SharedFreedTwice | pintos/src/userprog/pagedir.c:27-48 | A directory that maps a page twice frees it twice |
| VirtualAddress.PgRoundDown | pintos/src/threads/vaddr.h:38-41 | The page boundary at or below |

## Left out

- SharedLock.NoLostWakeUp: the waiter that cond_signal picks is arbitrary, as cond_cmp may compare semaphores without waiters; the inner lock is mutual exclusion only.
- SchedulerRuns.RunInv: the kernel is a value and each action a function on it, so aliasing of list elements within thread structures is not captured there; `LinkedList` has the lists by pointers and `SchedulerLoops` the loops in place.
- SchedulerRuns.RunInv: sema_up and the end of lock_release are one step each, though the source restores the interrupt level in between; the first run of the idle thread and threads that exit holding a lock are not modelled.
- Donation.AcquireDonates: says nothing of a lock_acquire that goes wrong, nor of the priorities after the lock changes hands, when waiting_for_tlock still names the former holder.
- Donation.AcquireStopsIff: what the kernel does after it has read a freed structure is not modelled; the page may hold another thread by then.
- SchedulerRuns.StepInv: thread_set_nice is an action only under the feedback queue.
- SchedulerInvariant.WakeExpiredInv: which sleepers are due is arbitrary at each tick.
- Mlfqs.Mlfqs.Tick: the thread that runs and the length of the ready list are arbitrary within the number of threads; moving a thread in its list is in `Scheduler`.
- Heap.Heap.Free: arena headers and free-list links are fields of the model, not bytes of the pool.
- Heap.Heap.Malloc: each call is one step, under its descriptor's lock; sizes that with the header exceed 2^32, which get a block that is too small, are excluded.
- Heap.Heap.Realloc: excludes the same sizes.
- HeapSort.Sort: an element is one value, not SIZE bytes swapped one by one.
- HashTable.Hash.Insert: hash_clear, hash_destroy, hash_apply and the hash functions on bytes are not modelled; buckets are sequences; linked lists are in `LinkedList`.
- Ustar.MakeHeader: the message printed on failure is not modelled.
- StackArgs.Stack.PushStackArgs: a frame that does not fit the stack page is excluded; the source does not check.
- PageDirectory.PageDir.SetPage: addresses are given by page number; kernel mappings, the TLB and bits set by the processor are not modelled.
- list_unique, list_max and list_min, bitmap_count and the bitmap's file format, strtok's other uses, pg_round_up, calloc: they would only add easy members.
- The file system, virtual memory, devices, interrupts, system calls, ELF loading and process lifetimes.
