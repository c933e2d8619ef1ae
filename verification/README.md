# MS-Projects in Dafny

A model of the parts of this repository that are hardest to get right: the OS/161
kernel and its C library, and the SQL engine's join, grouping and sorting. Each source
file keeps its form. Code that updates arrays, lists or structures is a class or a
method with loops, proved against a specification; code that threads interleave is a
state machine whose steps are the critical sections, and its theorems are about every
run. `dafny verify dfyconfig.toml` checks the whole project.

What is modelled, and what is proved of it:

- **64-bit arithmetic on 32-bit words** (`DigitEstimate`, `DigitArrays`, `QDivRem`,
  `LongMul`, `SignedDivision`; lemmas on digit strings in `Digits`). Knuth's algorithm D
  on half-word digits gives the quotient and the remainder for all operands and every
  half-word width; the add-back runs exactly when the estimate was one too large.
  Multiplication is exact modulo 2^64, and signed division truncates as C99 asks.
- **Synchronisation** (`Semaphore`, `SleepLock`, `RwLock`, `Stoplight`). The semaphore is
  modelled at the grain of its spinlocks: no wakeup is lost, and each V adds one and each P
  takes one. The sleep lock refines it. The reader-writer lock shares among readers,
  excludes writers and does not deadlock. Any number of cars cross the four-quadrant
  intersection on their paths without collision or deadlock, and every run ends.
- **Threads** (`Scheduler`, `Migration`, `ThreadList`; counts of list elements and set
  sizes in `Counting`). Over every run of any number of CPUs no thread is current twice
  or listed twice, every thread that was not destroyed is in exactly one place, the
  exited threads are the zombies and the destroyed, and queues are served in order;
  migration loses nothing whatever the other CPUs do meanwhile.
- **Memory** (`HeapPages`, `HeapInvariant`, `Kmalloc`, `Coremap`, `PageTables`,
  `AddressSpace`, `AddressCopy`, `PageFault`; page size and disjoint ranges in `Extents`).
  In every run of the kernel heap blocks in use never overlap and keep their bytes. The
  coremap is first fit. An address space built by any additions is the finite map of
  what was added, and a forked one has the same contents on frames of its own.
- **Open files** (`FileHandles`). Reference counts equal the number of descriptors that
  point to a handle, so no descriptor dangles and every handle is freed once.
- **Number text** (`Numerals`, `Printf`, `Atoi`, `PrintReadBack`). The printf state
  machine, its digit buffer, what every conversion prints, and reading back what %d prints.
- **SQL** (`HashJoin`, `BinJoin`, `JoinPlans`, `OrderBy`, `GroupBy`; optional values in
  `Options`). The partitioned hash join is the nested-loop join, ORDER BY by repeated tree
  insertion is the lexicographic stable sort, and COUNT per bin, combined, is COUNT over
  all rows.

Where the code does not meet what one would ask of it, the code is kept and the exact
condition is proved:

- `removefromcoremap` reads the count at a moving index, so freeing a chunk can take pages
  of the chunk behind it: `Coremap.FreeExact`.
- `as_copy` leaves `end` at the first table; adding to a copy whose tables are all full
  drops the tables behind it: `AddressSpace.AddrSpace.AddPageEntry`, with the input in
  `AddressCopy.CopyLosesPage`.
- When `as_copy` runs out of pages past the first table it frees whatever frames the
  unwritten memory names: `AddressCopy.AsCopy` says when, in terms of the coremap and the
  memory before the call, and `AddressCopy.UnwrittenMemoryFrees` is a whole run.
- `sys_open` leaves a file open when VOP_STAT fails: `FileHandles.FileTables.Open`.
- Flags `-` and `0` together pad numbers with zeros behind: `PrintReadBack.ReadsBack`.
- A key with a negative remainder ends the reading of its table, and a joined row whose
  next key has one ends the join of its bin: `BinJoin.AllSurvive`, `BinJoin.WrittenAll`.
- Grouping columns run together in the group key: `GroupBy.GroupsRight`.
- ORDER BY drops rows without the column: `OrderBy.KeepsAllRows`.
- The quotient of the most negative number and -1 does not fit:
  `SignedDivision.QuotientFits`.

Inputs from outside are parameters: what kmalloc and the page allocator return, what
freshly allocated memory holds, the outcome of `vfs_open` and `VOP_STAT`, the changes
other CPUs make between critical sections, and the engine's column lookup, conditions and
projection.

## Model

| member | source | states |
|---|---|---|
| `DigitEstimate.TwoDigitTest` | os161/src/common/gcc-millicode/qdivrem.c:205-210 | an estimate that survives the test on two divisor digits is at most one above the true quotient digit |
| `DigitEstimate.TwoDigitTooBig` | os161/src/common/gcc-millicode/qdivrem.c:205-210 | an estimate that the test rejects really is above the true digit |
| `DigitEstimate.FirstEstimate` | os161/src/common/gcc-millicode/qdivrem.c:196-204 | the quotient of the two leading digits is never below the true digit |
| `DigitEstimate.FirstGuess` | os161/src/common/gcc-millicode/qdivrem.c:193-204 | the first estimate and its remainder, in the case where it would overflow too; it is never below the true digit |
| `DigitEstimate.CorrectGuess` | os161/src/common/gcc-millicode/qdivrem.c:205-210 | the correction loop ends after at most two rounds with an estimate that is the true digit or one more |
| `DigitEstimate.TestMeans` | os161/src/common/gcc-millicode/qdivrem.c:205-210 | the comparison of combined half words is the comparison of the two products, without overflow |
| `DigitArrays.BorrowStep` | os161/src/common/gcc-millicode/qdivrem.c:217-223 | one step of the subtract loop: the stored digit and the next borrow stand for the exact difference |
| `DigitArrays.MultiplySubtract` | os161/src/common/gcc-millicode/qdivrem.c:217-223 | in place, the window loses qhat times the divisor modulo the power of the base, and the borrow that is left tells whether it would go negative |
| `DigitArrays.AddBack` | os161/src/common/gcc-millicode/qdivrem.c:230-238 | in place, the window gains the divisor modulo the power of the base |
| `DigitArrays.ShlMultiplies` | os161/src/common/gcc-millicode/qdivrem.c:266-279 | shifting digits left by sh bits multiplies their value by 2^sh when no bit is pushed out |
| `DigitArrays.ShiftLeft` | os161/src/common/gcc-millicode/qdivrem.c:266-279 | the in-place loop computes the shift on exactly the given digits and nothing else |
| `DigitArrays.ShrDivides` | os161/src/common/gcc-millicode/qdivrem.c:247-258 | shifting a value that is a multiple of 2^d right by d bits divides it exactly |
| `DigitArrays.ShiftRight` | os161/src/common/gcc-millicode/qdivrem.c:247-254 | the in-place unnormalising loop computes that shift |
| `QDivRem.BorrowTells` | os161/src/common/gcc-millicode/qdivrem.c:224-238 | a borrow is left exactly when the estimate was one too large; adding the divisor back repairs it |
| `QDivRem.DivideDigit` | os161/src/common/gcc-millicode/qdivrem.c:193-239 | one round gives the true quotient digit and leaves the true remainder in the window; the add-back runs iff the estimate was one too large |
| `QDivRem.LoopStep` | os161/src/common/gcc-millicode/qdivrem.c:179-240 | the loop invariant: digits so far times divisor plus window equals the dividend digits brought down |
| `QDivRem.DividePass` | os161/src/common/gcc-millicode/qdivrem.c:179-240 | one iteration keeps that invariant and the digits outside its window |
| `QDivRem.DivideLoop` | os161/src/common/gcc-millicode/qdivrem.c:176-240 | all quotient digits and the remainder of the whole digit string |
| `QDivRem.SplitDigits` | os161/src/common/gcc-millicode/qdivrem.c:112-122 | the four half words of an operand evaluate to it |
| `QDivRem.JoinValue` | os161/src/common/gcc-millicode/qdivrem.c:243-262 | combining four digits into a long long gives their value |
| `QDivRem.ShortDivide` | os161/src/common/gcc-millicode/qdivrem.c:124-149 | division by a one-digit divisor |
| `QDivRem.NormalShift` | os161/src/common/gcc-millicode/qdivrem.c:169-171 | the shift count that sets the divisor's top bit, and no larger one |
| `QDivRem.Normalise` | os161/src/common/gcc-millicode/qdivrem.c:166-175 | both operands scaled alike, the divisor's leading digit at least half the base, nothing lost |
| `QDivRem.Denormalise` | os161/src/common/gcc-millicode/qdivrem.c:247-258 | the remainder scaled back |
| `QDivRem.DivisorDigits` | os161/src/common/gcc-millicode/qdivrem.c:123-150 | leading zero digits of the divisor are dropped without changing it |
| `QDivRem.DividendDigits` | os161/src/common/gcc-millicode/qdivrem.c:157-158 | leading zero digits of the dividend are dropped while it stays long enough |
| `QDivRem.LongDivide` | os161/src/common/gcc-millicode/qdivrem.c:159-262 | normalise, loop and denormalise together: quotient and remainder |
| `QDivRem.Qdivrem` | os161/src/common/gcc-millicode/qdivrem.c:67-263 | for every half-word width: q * v + r == u and r < v, or the division-by-zero outcome iff v is zero |
| `LongMul.CarryWord` | os161/src/common/gcc-millicode/muldi3.c:224-235 | adding a word pair with an unsigned compare as carry adds the values modulo the double word |
| `LongMul.BorrowWord` | os161/src/common/gcc-millicode/muldi3.c:219-222 | subtracting with an unsigned compare as borrow subtracts the values modulo the double word |
| `LongMul.Karatsuba` | os161/src/common/gcc-millicode/muldi3.c:43-69 | the identity behind the three-product scheme, signs included |
| `LongMul.Differences` | os161/src/common/gcc-millicode/muldi3.c:202-209 | absolute differences and their combined sign |
| `LongMul.AssembleProduct` | os161/src/common/gcc-millicode/muldi3.c:214-240 | the additions and the signed middle term give the exact product |
| `LongMul.Lmulq` | os161/src/common/gcc-millicode/muldi3.c:183-241 | the exact double-word product of two words |
| `LongMul.UnsignedProduct` | os161/src/common/gcc-millicode/muldi3.c:124-158 | the low double word of the product of two unsigned double words |
| `LongMul.Muldi3` | os161/src/common/gcc-millicode/muldi3.c:99-164 | the signed product modulo 2^64, for all operands |
| `LongMul.SignedOfUnsigned` | os161/src/common/gcc-millicode/muldi3.c:99-164 | the wrap is the identity exactly on values that fit |
| `SignedDivision.TruncDefined` | os161/src/common/gcc-millicode/divdi3.c:44-62 | truncating quotient and remainder exist for every divisor but zero |
| `SignedDivision.TruncUnique` | os161/src/common/gcc-millicode/divdi3.c:44-62 | and are the only pair with the C99 properties (section 6.5.5: truncation toward zero) |
| `SignedDivision.Divdi3` | os161/src/common/gcc-millicode/divdi3.c:44-62 | the truncated quotient, wrapped to 64 bits; division by zero iff the divisor is zero |
| `SignedDivision.Moddi3` | os161/src/common/gcc-millicode/moddi3.c:45-62 | the remainder with the sign of the dividend; it always fits |
| `SignedDivision.QuotientFits` | os161/src/common/gcc-millicode/divdi3.c:44-62 | the quotient fits unless the most negative number is divided by -1, and only then |
| `SignedDivision.QuotientAndRemainder` | os161/src/common/gcc-millicode/moddi3.c:45-62 | b * (a / b) + a % b == a modulo 2^64 for what both functions return, the overflowing quotient included |
| `Stoplight.StepInv` | os161/src/kern/synchprobs/problems.c:187-284 | every step of every car keeps: lock owners are the cars at those program points, at most three cars inside, semaphore plus cars inside is three |
| `Stoplight.Exclusion` | os161/src/kern/synchprobs/problems.c:211-284 | no two cars hold one quadrant |
| `Stoplight.Drives` | os161/src/kern/synchprobs/problems.c:211-284 | a car enters its own quadrant and then the ones before it in turn: one to turn right, two straight on, three to turn left |
| `Stoplight.InHeldQuadrant` | os161/src/kern/synchprobs/problems.c:211-284 | a car is only in a quadrant whose lock it holds |
| `Stoplight.NoCollision` | os161/src/kern/synchprobs/problems.c:187-284 | in no state of a run are two cars in one quadrant |
| `Stoplight.WantsNext` | os161/src/kern/synchprobs/problems.c:211-284 | a car that waits for quadrant q holds quadrant q + 1, or none |
| `Stoplight.Progress` | os161/src/kern/synchprobs/problems.c:187-284 | while a car is unfinished some car can step: no deadlock |
| `Stoplight.RunInv` | os161/src/kern/synchprobs/problems.c:187-284 | the invariant holds in every state of every run, for any number of cars |
| `Stoplight.RunsFinish` | os161/src/kern/synchprobs/problems.c:187-284 | every run is finite, and one that cannot go on has every car through, all locks free and the semaphore at three |
| `Semaphore.StepInv` | os161/src/kern/thread/synch.c:90-144 | every spinlock-sized step of P and V, with sleeping and waking as thread.c does it, keeps lock ownership, the sleepers list and the wakeup accounting |
| `Semaphore.RunInv` | os161/src/kern/thread/synch.c:90-144 | in every run the count is the initial count plus the Vs less the Ps that got through |
| `Semaphore.RunCalls` | os161/src/kern/thread/synch.c:90-144 | in every run the count is the initial count plus the calls of V less the calls of P, up to what threads still inside them owe |
| `Semaphore.AllReturned` | os161/src/kern/thread/synch.c:90-144 | once every thread has returned, each V has added one and each P has taken one |
| `Semaphore.NoLostWakeup` | os161/src/kern/thread/thread.c:1137-1169 | while threads sleep, every unit of the count has an unused wakeup under way |
| `Semaphore.SpinlocksProgress` | os161/src/kern/thread/thread.c:669-691 | the order of the two spinlocks cannot deadlock |
| `Semaphore.SleepOnlyWhenExhausted` | os161/src/kern/thread/synch.c:90-144 | when nothing inside can step, threads sleep only on a zero count |
| `SleepLock.Refines` | os161/src/kern/thread/synch.c:198-237 | every step of the sleep lock is a step of a semaphore with count one, or leaves its state alone |
| `SleepLock.StepInv` | os161/src/kern/thread/synch.c:198-237 | the owner field, the threads inside and the sleepers agree after every step |
| `SleepLock.RunInv` | os161/src/kern/thread/synch.c:198-237 | in every state of every run |
| `SleepLock.RunRoles` | os161/src/kern/thread/synch.c:198-237 | in every run a thread back from its last call is inside exactly when that call was lock_acquire |
| `SleepLock.MutualExclusion` | os161/src/kern/thread/synch.c:198-237 | no two threads are inside |
| `SleepLock.NoLostWakeup` | os161/src/kern/thread/synch.c:221-237 | a free lock with sleepers has a wakeup under way |
| `SleepLock.SleepOnlyWhenOwned` | os161/src/kern/thread/synch.c:198-237 | when nothing can step, threads sleep only on an owned lock |
| `RwLock.StepInv` | os161/src/kern/thread/synch.c:382-413 | every step keeps the permits conserved and the inner locks' owners right |
| `RwLock.RunInv` | os161/src/kern/thread/synch.c:382-413 | permits left plus permits held is max_readers in every state of every run |
| `RwLock.RunRoles` | os161/src/kern/thread/synch.c:382-413 | in every run a thread goes the readers' or the writers' way exactly as it called |
| `RwLock.RunLengths` | os161/src/kern/thread/synch.c:382-413 | in every run a thread that called to read is back out after exactly four moves of its own, one that called to write after 2 * max_readers + 4; with Progress every call ends |
| `RwLock.ReadersShare` | os161/src/kern/thread/synch.c:382-413 | for any number of threads up to the permits there is a run at whose end all of them read |
| `RwLock.WriterExcludes` | os161/src/kern/thread/synch.c:382-413 | with at least one permit, a writer inside excludes every reader and every other writer |
| `RwLock.PermitProgress` | os161/src/kern/thread/synch.c:382-413 | while a thread waits for a permit, some thread in the lock can step |
| `RwLock.Progress` | os161/src/kern/thread/synch.c:382-413 | while any thread is in the lock, some thread in it can step, in every state of every run: no deadlock |
| `HeapPages.ChainUnlink` | os161/src/kern/vm/kmalloc.c:352-375 | unlinking an element makes the chain one of the list without it |
| `HeapPages.SizesDouble` | os161/src/kern/vm/kmalloc.c:86-90 | the size classes are the powers of two from 16 bytes to half a page |
| `HeapPages.FullListOk` | os161/src/kern/vm/kmalloc.c:489-499 | a carved page's free list holds every block once |
| `HeapInvariant.NonOverlap` | os161/src/kern/vm/kmalloc.c:395-596 | two blocks in use never overlap |
| `HeapInvariant.TakeKeeps` | os161/src/kern/vm/kmalloc.c:424-449 | taking a page's first free block keeps the heap's invariant: lists, free chains in memory, pages apart, every block free or in use and never both |
| `HeapInvariant.AddKeeps` | os161/src/kern/vm/kmalloc.c:480-505 | adding a carved page keeps it |
| `HeapInvariant.GiveKeeps` | os161/src/kern/vm/kmalloc.c:555-576 | putting a block back keeps it |
| `HeapInvariant.DropKeeps` | os161/src/kern/vm/kmalloc.c:577-580 | dropping a page whose blocks are all free keeps it |
| `HeapInvariant.AddBigKeeps` | os161/src/kern/vm/kmalloc.c:604-616 | a multi-page block keeps it |
| `HeapInvariant.DropBigKeeps` | os161/src/kern/vm/kmalloc.c:621-633 | freeing a multi-page block keeps it |
| `HeapInvariant.ClientWriteKeeps` | os161/src/kern/vm/kmalloc.c:395-596 | a client writing inside its own block breaks no free chain |
| `HeapInvariant.MoveKeeps` | os161/src/kern/vm/kmalloc.c:395-633 | each of these moves keeps the invariant |
| `HeapInvariant.MoveSparesBlocks` | os161/src/kern/vm/kmalloc.c:395-633 | no move but the client's own store changes a byte of a block that stays in use |
| `HeapInvariant.RunsNonOverlap` | os161/src/kern/vm/kmalloc.c:395-633 | in every run of allocations, frees and client writes from a heap that meets the invariant, blocks in use never overlap |
| `HeapInvariant.RunsFromEmpty` | os161/src/kern/vm/kmalloc.c:395-633 | in particular in every run from the heap before its first use |
| `Kmalloc.BlockType` | os161/src/kern/vm/kmalloc.c:377-393 | the smallest size class that holds the request |
| `Kmalloc.Unlink` | os161/src/kern/vm/kmalloc.c:352-375 | the pointer walk removes exactly the target |
| `Kmalloc.Heap.constructor` | os161/src/kern/vm/kmalloc.c:100-142 | the heap before its first use meets the invariant |
| `Kmalloc.Heap.AllocPageRef` | os161/src/kern/vm/kmalloc.c:144-167 | the first page record not in use is marked, none if all are |
| `Kmalloc.Heap.DoAlloc` | os161/src/kern/vm/kmalloc.c:424-449 | a free block leaves the free list and becomes used; no other record, page or byte in use changes |
| `Kmalloc.Heap.TakeFromExisting` | os161/src/kern/vm/kmalloc.c:416-451 | gives a block of one of the class's pages if and only if one of them has a free block; no page record comes into use |
| `Kmalloc.Heap.CarvePage` | os161/src/kern/vm/kmalloc.c:489-499 | writes the links that make the whole page one free list |
| `Kmalloc.Heap.TakeFromFresh` | os161/src/kern/vm/kmalloc.c:462-508 | exactly one record comes into use, for the new page carved into blocks of the class with the first one given, or nothing is changed |
| `Kmalloc.Heap.FindPage` | os161/src/kern/vm/kmalloc.c:523-546 | finds the record whose page holds the address, if any does |
| `Kmalloc.Heap.GiveBack` | os161/src/kern/vm/kmalloc.c:548-595 | the block is put back, and the page and its record released if and only if it is then all free |
| `Kmalloc.Heap.RemovePage` | os161/src/kern/vm/kmalloc.c:352-375 | both lists lose the page's record |
| `Kmalloc.Heap.Kmalloc` | os161/src/kern/vm/kmalloc.c:601-619 | a block of the smallest class that fits, apart from every block in use, with no byte of those changed; from a page of the class while one has a free block, then no page record comes into use; else from the new page, for which exactly one record does; none only without pages or records; a large request is given the pages |
| `Kmalloc.Heap.Kfree` | os161/src/kern/vm/kmalloc.c:621-633 | exactly the block is freed and filled with 0xdeadbeef, no byte of another block in use changes; the page is released if and only if it is then all free, and only its record goes out of use; NULL does nothing |
| `Kmalloc.Heap.ClientWrite` | os161/src/kern/vm/kmalloc.c:395-633 | a store into a held block keeps the heap valid |
| `Scheduler.StepKeeps` | os161/src/kern/thread/thread.c:629-805 | every step of any CPU (switch, sleep, exit, exorcise, fork, wake, migrate) keeps the placement invariant |
| `Scheduler.RunInv` | os161/src/kern/thread/thread.c:459-488 | it holds in every state of every run, for any number of CPUs |
| `Scheduler.PlacementSafe` | os161/src/kern/thread/thread.c:629-805 | no thread is current on two CPUs, a busy CPU's thread is on no list, every thread is on at most one list |
| `Scheduler.StepPlaces` | os161/src/kern/thread/thread.c:629-805 | the number of places a thread is in, on lists or executing, is changed by no step but the fork that creates it and the exorcise that destroys it |
| `Scheduler.RunPlaces` | os161/src/kern/thread/thread.c:459-805 | in every state of every run a thread that exists and was not destroyed is in exactly one place, any other in none |
| `Scheduler.NoThreadLost` | os161/src/kern/thread/thread.c:459-805 | so it is on exactly one list and executing nowhere, or on none and current on a CPU that is not idle |
| `Scheduler.StepLife` | os161/src/kern/thread/thread.c:629-805 | the life of a thread: forked it is ready, picked it executes, then it yields, sleeps or exits; a sleeper is taken off its channel and made runnable; only a zombie is destroyed; a step moves no other thread |
| `Scheduler.StepChannel` | os161/src/kern/thread/thread.c:1137-1169 | a channel gains exactly the thread that goes to sleep on it and loses exactly the one taken off |
| `Scheduler.StepHome` | os161/src/kern/thread/thread.c:1013-1052 | a thread's CPU changes only when it is migrated; a new thread begins on its parent's |
| `Scheduler.NoOvertaking` | os161/src/kern/thread/thread.c:459-488 | the thread ahead on a run queue stays ahead until it is picked, unless its CPU begins a migration |
| `Scheduler.WokenInOrder` | os161/src/kern/thread/thread.c:1149-1169 | the sleeper ahead on a channel stays ahead until it is woken |
| `Scheduler.RunExited` | os161/src/kern/thread/thread.c:692-695 | in every state of every run the threads that called thread_exit are exactly the zombies and the destroyed |
| `Scheduler.ExitedStays` | os161/src/kern/thread/thread.c:868-917 | an exited thread is on a CPU's zombies or destroyed, executes nowhere again, and nothing else is destroyed |
| `Scheduler.ExorciseSafe` | os161/src/kern/thread/thread.c:286-297 | no thread that is current anywhere is destroyed |
| `Scheduler.SkipIsNeeded` | os161/src/kern/thread/thread.c:1013-1037 | without the skip, handing the current thread to an idle CPU makes it current on two CPUs, in any state that meets the invariant |
| `Scheduler.SkipReached` | os161/src/kern/thread/thread.c:970-1037 | a run from the start in which the current thread of one CPU is first among the victims while the other is idle |
| `Scheduler.SkipNeededInRun` | os161/src/kern/thread/thread.c:1013-1037 | at the end of that run, leaving the skip out makes thread 0 current on both CPUs |
| `ThreadList.List.constructor` | os161/src/kern/thread/threadlist.c:60-72 | an empty list between its two sentinels |
| `ThreadList.List.IsEmpty` | os161/src/kern/thread/threadlist.c:91-95 | true iff the list is empty |
| `ThreadList.List.InsertAfterNode` | os161/src/kern/thread/threadlist.c:105-121 | the node is linked in right behind the given one, in both directions |
| `ThreadList.List.InsertBeforeNode` | os161/src/kern/thread/threadlist.c:125-141 | right in front of the given one |
| `ThreadList.List.RemoveNode` | os161/src/kern/thread/threadlist.c:145-158 | unlinked, the others keep their order |
| `ThreadList.List.AddHead` | os161/src/kern/thread/threadlist.c:162-169 | prepends |
| `ThreadList.List.AddTail` | os161/src/kern/thread/threadlist.c:172-179 | appends |
| `ThreadList.List.RemHead` | os161/src/kern/thread/threadlist.c:182-197 | takes the first, or nothing from an empty list |
| `ThreadList.List.RemTail` | os161/src/kern/thread/threadlist.c:200-215 | takes the last, or nothing from an empty list |
| `ThreadList.List.InsertAfter` | os161/src/kern/thread/threadlist.c:218-224 | insertion by thread, with the count |
| `ThreadList.List.InsertBefore` | os161/src/kern/thread/threadlist.c:226-232 | insertion by thread, with the count |
| `ThreadList.List.Remove` | os161/src/kern/thread/threadlist.c:234-240 | removal of a listed thread, with the count |
| `Migration.Machine.Lock` | os161/src/kern/thread/thread.c:981-989 | taking a queue's lock after others changed it: exactly what the queue then holds, what had come and what had left |
| `Migration.Machine.CountQueues` | os161/src/kern/thread/thread.c:978-989 | total and own count are of the queues as they were locked, and what the others moved is exactly what was found changed |
| `Migration.Machine.TakeVictims` | os161/src/kern/thread/thread.c:996-1003 | the last threads of our queue, in order |
| `Migration.Machine.HandOut` | os161/src/kern/thread/thread.c:1011-1052 | fills one queue up to a share, passes over the current thread, sets t_cpu exactly for the threads handed out; behind the victims still to send there is only the current thread |
| `Migration.Machine.Distribute` | os161/src/kern/thread/thread.c:1005-1053 | the same over the other CPUs up to the one where the victims ran out, each queue as it was found at its lock, with exactly what the others moved |
| `Migration.Machine.PutBack` | os161/src/kern/thread/thread.c:1055-1066 | the rest returns to our queue |
| `Migration.Machine.MoveVictims` | os161/src/kern/thread/thread.c:994-1066 | victims taken, handed out and the rest put back: what our queue holds in the end, and no thread lost or doubled |
| `Migration.Machine.ConsiderMigration` | os161/src/kern/thread/thread.c:970-1073 | share is the total divided by the number of CPUs, rounded up; the queues at the end and what the others had taken off them before a lock are, thread by thread, the queues at the start and what the others had put on them, whatever they did; the current thread stays, no queue is brought above a share, our queue keeps a share, and a thread other than the current one is put back only when every other queue has a share |
| `Migration.Machine.EvenOut` | os161/src/kern/thread/thread.c:970-1073 | on an otherwise quiet machine our queue ends with exactly its first share of threads when it had that many, all above went to queues below a share, and none of those ends above it |
| `Coremap.FillTiles` | os161/src/kern/vm/coremap.c:84-92 | a chunk in a free run leaves the entries tiled by chunks |
| `Coremap.LoopReads` | os161/src/kern/vm/coremap.c:101-106 | what the loop that re-reads the count at a moving index sees at each step |
| `Coremap.RemovedIs` | os161/src/kern/vm/coremap.c:97-108 | it clears max(n, m) entries, m the count right behind, or n mod 2^17 for a longer chunk |
| `Coremap.FreeExact` | os161/src/kern/vm/coremap.c:97-108 | exactly the other chunks are left if and only if n < 2^17 and m <= n |
| `Coremap.PageLeaks` | os161/src/kern/vm/coremap.c:97-108 | a chunk of 2^17 pages or more keeps a page that nobody owns |
| `Coremap.NeighbourLoses` | os161/src/kern/vm/coremap.c:97-108 | a longer chunk right behind loses its first m - n pages |
| `Coremap.FreeTakesNeighbour` | os161/src/kern/vm/coremap.c:97-108 | a concrete map where that happens |
| `Coremap.AllocFree` | os161/src/kern/vm/coremap.c:84-108 | allocate then free restores every entry if and only if the freeing is exact |
| `Coremap.FreePages` | os161/src/kern/vm/coremap.c:97-108 | freeing single pages one by one leaves exactly the rest iff no longer chunk begins right behind any of them |
| `Coremap.FreeStray` | os161/src/kern/vm/coremap.c:97-108 | freeing our pages and then any other indices leaves exactly the other chunks if and only if the first was exact and the others then have zero counts |
| `Coremap.StrayTakesPage` | os161/src/kern/vm/coremap.c:97-108 | a concrete map where a stray free takes a page that somebody owns |
| `Coremap.PageMap.constructor` | os161/src/kern/vm/coremap.c:69-75 | all entries free |
| `Coremap.PageMap.IndexOfAddress` | os161/src/kern/vm/coremap.c:111-134 | index to address and back; page addresses begin at the first free address, a page apart |
| `Coremap.PageMap.GetPaddr` | os161/src/kern/vm/coremap.c:116-129 | the leftmost free run, and 0 iff there is none (or the count is not positive) |
| `Coremap.PageMap.AddToCoremap` | os161/src/kern/vm/coremap.c:84-92 | exactly the run's entries are written |
| `Coremap.PageMap.Alloc` | os161/src/kern/vm/vm.c:36-49 | first fit; fails iff no run is free; keeps the map tiled |
| `Coremap.PageMap.RemoveFromCoremap` | os161/src/kern/vm/coremap.c:97-108 | the loop on any address |
| `Coremap.PageMap.Free` | os161/src/kern/vm/vm.c:72-86 | freeing a chunk, with the exact condition for the others to survive |
| `PageTables.ScanIsLookup` | os161/src/kern/vm/addrspace.c:84-104 | over distinct addresses the scan is the lookup in the map that the added entries make |
| `PageTables.AddIsInsert` | os161/src/kern/vm/addrspace.c:413-446 | adding an entry for a fresh address adds exactly that mapping |
| `PageTables.RelocatedMatch` | os161/src/kern/vm/addrspace.c:363-411 | a relocated set of tables answers every lookup alike, with the frame that replaced the original |
| `AddressSpace.ScanTable` | os161/src/kern/vm/addrspace.c:91-99 | the scan of one table stops at its first free entry |
| `AddressSpace.AddrSpace.constructor` | os161/src/kern/vm/addrspace.c:187-209 | an empty space, whatever the memory held |
| `AddressSpace.AddrSpace.Lookup` | os161/src/kern/vm/addrspace.c:84-104 | the scan finds the first entry for the address, over all tables |
| `AddressSpace.AddrSpace.FindRoom` | os161/src/kern/vm/addrspace.c:414-431 | the first free slot, in the last table, or none iff all tables are full |
| `AddressSpace.AddrSpace.AddPageEntry` | os161/src/kern/vm/addrspace.c:413-446 | the entry is added behind all entries there were if and only if the last table has room or `end` is the last table; otherwise exactly the tables behind `end` are lost |
| `AddressSpace.BuildSpace` | os161/src/kern/vm/addrspace.c:187-209 | from as_create through any sequence of additions the chain holds exactly the entries added, in order, all tables but the last full; over distinct addresses the lookup is that of the finite map they make |
| `AddressCopy.AsDestroy` | os161/src/kern/vm/addrspace.c:211-233 | one page_free per mapping, in scan order, and every table but the embedded first one freed, in order; exactly the other chunks are left if and only if every one of these frees is exact |
| `AddressCopy.Memory.CopyFrame` | os161/src/kern/vm/addrspace.c:391-401 | a page of its own with the same contents, or nothing iff no page is free |
| `AddressCopy.CopyTable` | os161/src/kern/vm/addrspace.c:382-405 | one table copied, or its front part when pages run out |
| `AddressCopy.AsCopy` | os161/src/kern/vm/addrspace.c:363-411 | same mappings, flags and contents on frames of its own, `end` at the first table, if and only if at least as many pages are free as there are mappings; otherwise every free page is taken and given back, and the coremap is as before if and only if, before the call, no longer chunk began right behind a free page and no frame that the unwritten rest of the table then reached names had a count |
| `AddressCopy.TookFree` | os161/src/kern/vm/addrspace.c:390-400 | taking single pages for a copy leaves exactly that many fewer free |
| `AddressCopy.CopyFreesPage` | os161/src/kern/vm/addrspace.c:363-411 | 339 mappings, 338 free pages and memory for the second table that names a page in use: the copy fails and that page is free while still handed out |
| `AddressCopy.UnwrittenMemoryFrees` | os161/src/kern/vm/addrspace.c:363-411 | that from an empty coremap of 677 pages: the page lost is the one the parent maps first |
| `AddressCopy.AddToCopy` | os161/src/kern/vm/addrspace.c:363-446 | a page added to the copy of a space with two or more full tables: no address of the second and later tables is found any more |
| `AddressCopy.CopyLosesPage` | os161/src/kern/vm/addrspace.c:363-446 | that with 676 pages added to a new space, copied when 676 pages are free, and one more page: the parent finds page 338, the copy does not |
| `PageFault.AddedIsFound` | os161/src/kern/vm/addrspace.c:136-146 | the page a fault adds is what the next lookup finds |
| `PageFault.VmFault` | os161/src/kern/vm/addrspace.c:77-153 | by fault type, region, stack bounds and flags: the frame a lookup finds, EFAULT or ENOMEM; the zeroed stack page a write just under the stack adds and nothing else ever; all other mappings stay if and only if the last table has room or `end` is the last table |
| `FileHandles.ReleaseCounts` | os161/src/kern/syscall/file_syscalls.c:344-369 | giving up a pointer keeps: references equal the number of slots, no pointer dangles |
| `FileHandles.ShareCounts` | os161/src/kern/syscall/file_syscalls.c:443-456 | one more pointer keeps it |
| `FileHandles.NewCounts` | os161/src/kern/syscall/file_syscalls.c:182-199 | a new handle keeps it |
| `FileHandles.FileTables.Release` | os161/src/kern/syscall/file_syscalls.c:353-366 | the last reference closes the file and frees the handle, once; an earlier one only lowers the count |
| `FileHandles.FileTables.Close` | os161/src/kern/syscall/file_syscalls.c:344-369 | EBADF iff the descriptor is not open, else the slot is given up |
| `FileHandles.FileTables.Dup2` | os161/src/kern/syscall/file_syscalls.c:435-460 | both descriptors point to the old handle afterwards, aliases included; EBADF iff a descriptor is bad |
| `FileHandles.FileTables.FirstNull` | os161/src/kern/syscall/file_syscalls.c:182-208 | the lowest free descriptor, or none iff the table is full |
| `FileHandles.FileTables.Open` | os161/src/kern/syscall/file_syscalls.c:180-237 | the lowest free descriptor; a failure leaves tables and handles alone, and leaves a file open iff VOP_STAT failed |
| `FileHandles.FileTables.StartThread` | os161/src/kern/syscall/file_syscalls.c:30-143 | a kernel-started thread gets three handles of its own; if a step fails its error is returned, everything opened and allocated is given back and tables, handles and open files are as before |
| `FileHandles.FileTables.Fork` | os161/src/kern/thread/thread.c:566-573 | the child's table is a copy, every handle gains one reference per slot, aliases counted twice |
| `FileHandles.FileTables.Exit` | os161/src/kern/thread/thread.c:884-894 | every pointer is given up, aliases one by one |
| `FileHandles.AllGone` | os161/src/kern/thread/thread.c:884-894 | when all threads have exited no handle is left and only leaked files are open |
| `HashJoin.TruncatedRemainder` | SQL query processor and optimizer/src/edu/buffalo/cse562/ConditionEvaluator.java:291-292 | the bin number is the remainder of a truncating division, with the sign of the key |
| `HashJoin.KeptCounts` | SQL query processor and optimizer/src/edu/buffalo/cse562/ConditionEvaluator.java:284-290 | the conditions keep each row that passes as often as it was there, and no other |
| `HashJoin.OnePair` | SQL query processor and optimizer/src/edu/buffalo/cse562/ConditionEvaluator.java:361-413 | two rows join exactly when their keys agree |
| `HashJoin.JoinRowConcat` | SQL query processor and optimizer/src/edu/buffalo/cse562/ConditionEvaluator.java:361-413 | a row joined with two tables in turn is joined with both |
| `HashJoin.EquiJoinConcat` | SQL query processor and optimizer/src/edu/buffalo/cse562/ConditionEvaluator.java:361-413 | two tables in turn joined with a third: with these three laws the equijoin is fixed |
| `HashJoin.PartitionBinned` | SQL query processor and optimizer/src/edu/buffalo/cse562/ConditionEvaluator.java:291-292 | every row is in the bin of its key |
| `HashJoin.PartitionKeeps` | SQL query processor and optimizer/src/edu/buffalo/cse562/ConditionEvaluator.java:287-310 | the bins together are the rows, as a multiset, when no key has a negative remainder |
| `HashJoin.BinwiseJoin` | SQL query processor and optimizer/src/edu/buffalo/cse562/ConditionEvaluator.java:227-245 | joining bin by bin is joining the whole, for every number of bins |
| `HashJoin.EquiJoinAnyOrder` | SQL query processor and optimizer/src/edu/buffalo/cse562/ConditionEvaluator.java:361-413 | the join depends on its tables only as multisets |
| `BinJoin.FlushToDisk` | SQL query processor and optimizer/src/edu/buffalo/cse562/ConditionEvaluator.java:608-622 | every buffer is appended to its file |
| `BinJoin.AllSurvive` | SQL query processor and optimizer/src/edu/buffalo/cse562/ConditionEvaluator.java:284-314 | all rows that pass are binned iff no key among them has a negative remainder |
| `BinJoin.SurvivorsPrefix` | SQL query processor and optimizer/src/edu/buffalo/cse562/ConditionEvaluator.java:284-314 | the rows binned are those that pass up to the first one whose key has a negative remainder |
| `BinJoin.NegativeKeyLoses` | SQL query processor and optimizer/src/edu/buffalo/cse562/ConditionEvaluator.java:284-314 | a table of two rows whose first key is -1: both are lost |
| `BinJoin.CreateBins` | SQL query processor and optimizer/src/edu/buffalo/cse562/ConditionEvaluator.java:247-318 | the files hold the surviving rows by key, for every flush limit |
| `BinJoin.InMemoryMap` | SQL query processor and optimizer/src/edu/buffalo/cse562/ConditionEvaluator.java:637-713 | a lookup gives the rows with that key, in order |
| `BinJoin.LookupJoins` | SQL query processor and optimizer/src/edu/buffalo/cse562/ConditionEvaluator.java:384-391 | joining with what the lookup gives is joining with the table |
| `BinJoin.LookupNext` | SQL query processor and optimizer/src/edu/buffalo/cse562/ConditionEvaluator.java:480-606 | files and shared buffers gain the joined rows before the first one without a bin, by their next key, for every flush limit; without such a row that is the whole join and the buffers are empty |
| `BinJoin.WrittenAll` | SQL query processor and optimizer/src/edu/buffalo/cse562/ConditionEvaluator.java:532-604 | all joined rows are written if and only if none has a next key with a negative remainder |
| `BinJoin.NegativeNextKeyLoses` | SQL query processor and optimizer/src/edu/buffalo/cse562/ConditionEvaluator.java:532-604 | a joined row whose next key is -1 is not written |
| `JoinPlans.LookupFinal` | SQL query processor and optimizer/src/edu/buffalo/cse562/ConditionEvaluator.java:361-413 | the joined and projected rows of one bin, behind what the shared buffers held, for every flush limit |
| `JoinPlans.JoinBinsFinal` | SQL query processor and optimizer/src/edu/buffalo/cse562/ConditionEvaluator.java:227-245 | bin i of the result is what the shared buffers held for it and the join of the bins i |
| `JoinPlans.JoinBinsNext` | SQL query processor and optimizer/src/edu/buffalo/cse562/ConditionEvaluator.java:227-245 | the same for a join that is not the last: what each pair of bins writes before a row without a bin, by the next key; all of the join when there is no such row |
| `JoinPlans.JoinOfBins` | SQL query processor and optimizer/src/edu/buffalo/cse562/ConditionEvaluator.java:227-245 | what is written over all bins is the join, as a multiset |
| `JoinPlans.TwoTables` | SQL query processor and optimizer/src/edu/buffalo/cse562/ConditionEvaluator.java:158-187 | the two-table join equals the nested-loop join of the surviving rows, and that of all rows that pass when no key has a negative remainder |
| `JoinPlans.RunStage` | SQL query processor and optimizer/src/edu/buffalo/cse562/ConditionEvaluator.java:132-156 | one further table of a chain: what files and shared buffers gain, whatever they hold; the join of the table with the join so far, as a multiset, when every joined row has a bin |
| `JoinPlans.Chain` | SQL query processor and optimizer/src/edu/buffalo/cse562/ConditionEvaluator.java:79-125 | a chain of any length whose first join goes through memory equals the nested-loop join of the surviving rows when every joined row has a bin, and that of all rows that pass when every table is read to its end |
| `OrderBy.RotateKeeps` | SQL query processor and optimizer/src/edu/buffalo/cse562/OperatorOrderBy.java:45-118 | rotations change nothing about the order of a TreeMap's entries |
| `OrderBy.InsertPlaces` | SQL query processor and optimizer/src/edu/buffalo/cse562/OperatorOrderBy.java:45-118 | with a comparator that is never zero, an insertion into a sorted tree of any shape goes behind its equals |
| `OrderBy.PlacedTies` | SQL query processor and optimizer/src/edu/buffalo/cse562/OperatorOrderBy.java:45-118 | and changes no other ties |
| `OrderBy.CalculateOrderBy` | SQL query processor and optimizer/src/edu/buffalo/cse562/OperatorOrderBy.java:121-200 | one pass is a stable sort of the rows that have the column: ascending keys by the key order, descending by its reverse |
| `OrderBy.PassInFront` | SQL query processor and optimizer/src/edu/buffalo/cse562/EvaluateStatement.java:257-270 | a pass for an earlier column keeps the order by the later ones among equals |
| `OrderBy.SortRows` | SQL query processor and optimizer/src/edu/buffalo/cse562/EvaluateStatement.java:257-270 | passes from last to first give the lexicographic order: rows differ first in a column where the earlier row has the smaller key if it is ascending, the larger if descending; ties stay in input order |
| `OrderBy.FirstColumnDecides` | SQL query processor and optimizer/src/edu/buffalo/cse562/EvaluateStatement.java:257-270 | the first column in which two rows differ decides their order, in its own direction |
| `OrderBy.KeepsAllRows` | SQL query processor and optimizer/src/edu/buffalo/cse562/OperatorOrderBy.java:121-158 | the result is a permutation of the rows iff every row has every column |
| `OrderBy.RowWithoutColumn` | SQL query processor and optimizer/src/edu/buffalo/cse562/OperatorOrderBy.java:121-158 | a row without the column is in no result |
| `GroupBy.BuildKey` | SQL query processor and optimizer/src/edu/buffalo/cse562/OperatorGroupBy.java:34-45 | the concatenation of the values that are there |
| `GroupBy.GroupKeyConcat` | SQL query processor and optimizer/src/edu/buffalo/cse562/OperatorGroupBy.java:34-45 | the key of values side by side is the keys side by side; a missing value adds nothing |
| `GroupBy.WithKeyCounts` | SQL query processor and optimizer/src/edu/buffalo/cse562/OperatorGroupBy.java:46-53 | a group holds each row of its key as often as the table does, and no other |
| `GroupBy.DistinctPrefix` | SQL query processor and optimizer/src/edu/buffalo/cse562/OperatorGroupBy.java:46-53 | later rows only add groups behind those that are there |
| `GroupBy.CalculateGroupBy` | SQL query processor and optimizer/src/edu/buffalo/cse562/OperatorGroupBy.java:29-73 | groups in order of first appearance, rows in order inside a group |
| `GroupBy.CountBin` | SQL query processor and optimizer/src/edu/buffalo/cse562/Count.java:57-60 | every group of a bin with the number of its rows |
| `GroupBy.CombineCount` | SQL query processor and optimizer/src/edu/buffalo/cse562/Count.java:67-94 | the sum of a group's partial counts |
| `GroupBy.CombineGroups` | SQL query processor and optimizer/src/edu/buffalo/cse562/CombineGroup.java:32-76 | partial rows grouped by key and added up |
| `GroupBy.TotalOfBins` | SQL query processor and optimizer/src/edu/buffalo/cse562/EvaluateStatement.java:144-221 | the partial counts of a key add up to the number of its rows |
| `GroupBy.OrderOfBins` | SQL query processor and optimizer/src/edu/buffalo/cse562/EvaluateStatement.java:144-221 | groups keep the order of first appearance over all bins |
| `GroupBy.CountGroups` | SQL query processor and optimizer/src/edu/buffalo/cse562/EvaluateStatement.java:144-221 | bins grouped, counted and combined equal grouping and counting all rows at once |
| `GroupBy.AnySplit` | SQL query processor and optimizer/src/edu/buffalo/cse562/EvaluateStatement.java:144-221 | every split of the rows into bins gives every key the same count |
| `GroupBy.GroupsRight` | SQL query processor and optimizer/src/edu/buffalo/cse562/OperatorGroupBy.java:34-53 | groups hold rows with equal column values iff no two different rows have the same concatenation |
| `GroupBy.ColumnsRunTogether` | SQL query processor and optimizer/src/edu/buffalo/cse562/OperatorGroupBy.java:34-45 | two different rows with the same concatenation, so that GroupsRight fails for them |
| `GroupBy.FixedLengthColumns` | SQL query processor and optimizer/src/edu/buffalo/cse562/OperatorGroupBy.java:34-45 | no two different rows have the same concatenation when each column has a fixed length |
| `GroupBy.SingleColumn` | SQL query processor and optimizer/src/edu/buffalo/cse562/OperatorGroupBy.java:34-45 | nor with a single column that every row has |
| `Numerals.NumeralEvaluates` | os161/src/common/libc/printf/__printf.c:426-446 | the digits of every number evaluate back to it |
| `Numerals.NumeralLength` | os161/src/common/libc/printf/__printf.c:76-84 | at most k digits iff below the k-th power of the base |
| `Printf.FitsBuffer` | os161/src/common/libc/printf/__printf.c:76-84 | every 64-bit number fits the buffer in every base |
| `Printf.BufferIsTight` | os161/src/common/libc/printf/__printf.c:76-84 | 22 octal digits and the NUL fill it exactly |
| `Printf.Printer.Modifier` | os161/src/common/libc/printf/__printf.c:178-228 | flags, sizes, width digits and the leading zero |
| `Printf.Printer.Fill` | os161/src/common/libc/printf/__printf.c:335-344 | exactly that many fill characters |
| `Printf.Printer.PrintStuff` | os161/src/common/libc/printf/__printf.c:352-391 | prefix, text and padding in the right order |
| `Printf.Printer.NumberText` | os161/src/common/libc/printf/__printf.c:400-454 | right to left in a buffer of 23, inside it for all numbers and bases, giving the numeral |
| `Printf.Printer.PrintNum` | os161/src/common/libc/printf/__printf.c:400-478 | the numeral with its prefixes in its field |
| `Printf.Printer.Send` | os161/src/common/libc/printf/__printf.c:483-550 | one format character refines one step of the formatting function, %c of NUL included |
| `Printf.Printer.Vprintf` | os161/src/common/libc/printf/__printf.c:557-575 | the whole format; the count returned is the length printed |
| `Atoi.Parse` | os161/src/common/libc/stdlib/atoi.c:49-101 | blanks, sign, digits, anything: the value modulo 2^32 as an int |
| `Atoi.Reads` | os161/src/common/libc/stdlib/atoi.c:49-101 | what any blanks, optional sign, digits and rest read as: the value, negated behind a minus, modulo 2^32 as an int |
| `PrintReadBack.PrintsField` | os161/src/common/libc/printf/__printf.c:483-521 | %d with any width and flags prints the padded field |
| `PrintReadBack.FieldLength` | os161/src/common/libc/printf/__printf.c:352-391 | its length is the larger of width and natural length |
| `PrintReadBack.PrintsNumber` | os161/src/common/libc/printf/__printf.c:400-550 | %d, %u, %x, %o and %p with any flags, width and size print the digits of the argument in the base, behind sign and prefix, filled up to the width on the right side |
| `PrintReadBack.PrintsText` | os161/src/common/libc/printf/__printf.c:483-550 | %s and %c print the text in the field, (null) for a null pointer and nothing for the character NUL |
| `PrintReadBack.PrintsPlain` | os161/src/common/libc/printf/__printf.c:483-550 | characters outside a conversion are printed as they are |
| `PrintReadBack.ReadsBack` | os161/src/common/libc/stdlib/atoi.c:49-101 | atoi of the field is the int, if and only if it was not zero-padded on the right or is zero |
| `PrintReadBack.ZeroPaddedBehind` | os161/src/common/libc/printf/__printf.c:352-391 | `%-02d` of 1 prints 10 |

## Left out

- Condition variables and the whale-mating problem: `cv_signal` does not take the
  spinlock `cv_wait` uses, and the counters drop only after wakeup.
- `removePageEntry`, `sys_sbrk`, region definition and loading of an address space, and
  everything past the lookup in `vm_fault` that writes the TLB.
- The process table, `execv`, `waitpid`, `lseek`, `read`, `write`, the VFS and all devices.
- SUM, AVG and DISTINCT, projection of expressions, condition evaluation, the index files,
  and a first join of two large tables, where only one side is binned.
- The order in which the waiters of a semaphore or a lock get through, and fairness over a
  whole run; the order on run queues and wait channels is modelled.
- QDivRem.Qdivrem: the remainder is always returned; the null-pointer case skips only its storing.
- Kmalloc.Heap.AllocPageRef: the words of in-use bits are a sequence of booleans.
- Kmalloc.Heap.Kmalloc: pages come from a parameter that is fresh whenever it is not zero.
- Kmalloc.Heap.Kfree: callers free only blocks in use, as the kernel's assertions demand;
  releasing the pages themselves is left to the coremap model.
- Coremap.PageMap.RemoveFromCoremap: the entry past the last one counts as zero; the code
  would read uninitialised memory there.
- AddressCopy.AsCopy: other threads that allocate pages meanwhile are not modelled, nor the
  pages that kmalloc takes for the tables themselves; kmalloc succeeds.
- AddressSpace.AddrSpace.AddPageEntry: frames are not zero, as all callers check.
- FileHandles.FileTables.Fork: system calls run one at a time; the unlocked increments of
  a shared handle's count by two threads at once are not interleaved.
- FileHandles.FileTables.StartThread: each `vfs_open` counts as a file of its own; that all
  three are the console device is not modelled.
- Printf.Printer.Modifier: a width too large for an int is not wrapped.
- JoinPlans.Chain: what a whole chain writes after a joined row without a bin is stated
  stage by stage, in JoinPlans.RunStage and JoinPlans.JoinBinsFinal.
- BinJoin.CreateBins, BinJoin.LookupNext: when buffers are flushed changes no result; how
  many rows are buffered in between is not stated.
- GroupBy.CombineGroups: the grouping columns are among the selected ones, so that a
  partial row has its group's key.
- OrderBy.CalculateOrderBy: a red-black tree's recolouring is not modelled; any rotations
  are.
