# CyberEngineMkIII: memory heap, semaphore, logger, UTF-8 strings, command line

This project models five components of the engine in Dafny and proves what they
keep over every run. `dafny verify dfyconfig.toml` checks all of it.

**The heap** (`Bytes`, `VirtualMemory`, `LockGuard`, `BlockTable`, `HeapModel`,
`Block`, `FreeList`, `OtherThreads`, `Heap`, `FirstFit`, `HeapProperties`). A heap is a byte array in which
block headers and client data lie side by side: header fields are decoded from
little-endian bytes and every store is a store of bytes. `BlockTable` and
`HeapModel` say what the operations do to the blocks as values; `Block`,
`FreeList` and `Heap` are the imperative code, proved to compute exactly that
while the bytes of every block in use stay what they were. `Contents()`, a map
from live blocks to their bytes, is what clients see. A reallocation that moves
drops the lock; `Realloc` takes the steps of the other threads as a schedule, one
list of steps in front of every copied byte and before the free, and is proved for
all schedules: `OtherThreads` says as values what they do to the blocks, and so how
the call ends.
Header sizes are those of the release layout (16 and 24 bytes).

**The semaphore** (`SemaphoreModel`, `Semaphore`). One event is one stretch of
code under the mutex. Which sleeper a wake reaches, and spurious wakes, are up to
an adversary. The class is proved to perform the events of the model.

**The logger** (`LogFormat`, `LoggerModel`, `Logger`). The state machine
interleaves producers, drainers, flushers and pausers over the queue's lock and
the file's; writes may be partial or fail. The class holds the linked queue and
the drain as one thread performs it; whatever its contracts allow is shown to be a
run of the machine.

**UTF-8 strings** (`Utf8`, `Utf8String`) and **the command line**
(`CommandLine`) are methods with loops proved against grammars and list
functions.

## Where the code falls short

The code is modelled as it is. A failed assertion reaches HCF, which stops a debug
build and is undefined behaviour in the release layout modelled here; the model
calls this halting. Each of these shortfalls has a run or an input that shows it:

- `Free` can fail an assertion on a valid pointer, because FreeImpl merges without
  the size guard of the scan (`HeapProperties.FreeCanHalt`): exactly when
  `FreeHalts` holds, by the contract of `Heaps.Heap.Free`.
- The comment in AllocImpl promises the first fit. Another block may be taken, in a
  list with a block in front of its free left neighbour
  (`HeapProperties.AnotherFitTaken`) and in an ordered one
  (`HeapProperties.FirstFitOvertaken`). In a list whose blocks in front of the first
  fit stand behind their free left neighbours, which an ordered list is
  (`FirstFits.OrderedIsBackward`), the first fit is taken exactly unless it is
  overtaken (`FirstFits.FirstFitTakenIff`): neighbours in front of it make one block
  that is large enough, and behind these in the list another block is merged into
  one that stands before them all. In any list, the first fit is taken with the
  heap as it was exactly when no block in front of it can be merged
  (`FirstFits.FirstFitIff`).
- An allocation can fail, or grow the heap, although a free block fits
  (`HeapProperties.FittingBlockSkipped`). This needs a free list in which a block too
  small for the request stands in front of the free block that ends where it starts
  (`HeapModel.AllocateReuses`); a list without such pairs gets one by a call of
  `Free` exactly under `BridgesBackwards` (`HeapModel.ReleaseKeepsOrderIff`), and by
  no other operation.
- The interface of the semaphore promises that SignalN signals no more than are
  waiting. It can let threads to come walk through as well
  (`SemaphoreModel.SignalWithoutWaiters`), and SignalAll can too
  (`SemaphoreModel.SignalAllLeavesSurplus`); exactly when is said by
  `SemaphoreModel.SurplusIff` and `SemaphoreModel.SignalAllSurplusIff`. How many walk
  through is what `Walkers` counts (`SemaphoreModel.WalkersWalk`): while nobody is
  inside at most one, because that one resets the counters
  (`SemaphoreModel.FiveSignalsOneWalker`), and the last thread to leave takes the rest
  with it (`SemaphoreModel.LeaverTakesRest`).
- A signal can take a release back when FWakeCount runs over
  (`SemaphoreModel.WrapRevokes`, `SemaphoreModel.WrapRevokesAll`): exactly when the
  new count lies below a released ticket (`SemaphoreModel.RevokesIff`). What then is
  left of the promises of the two signals is said by
  `SemaphoreModel.SignalNReleasesIff` and `SemaphoreModel.SignalAllReleasesIff`.
- `Shrink(n)` does not cut a string of n + 1 characters
  (`Utf8Strings.ShrinkLeavesTwo`, `Utf8Strings.ShrinkKeepsPromiseIff`).
- Validate accepts overlong forms and numbers above U+10FFFF
  (`Utf8.BeyondTheStandard`), and nothing else beyond section 4 of RFC 3629
  (`Utf8.RfcTextIff`).

Where comments and code differ, the model follows the code: the header comment of
CalculateInitialCommitSize names sizeof(Block) + 1, the code uses
sizeof(LargeBlock) + 1; the interface of Realloc asks for less than 2047 MB, the
code allows 2047 MB.

## Model

| member | source | states |
|---|---|---|
| Bytes.RoundTrip | Engine/Engine/Memory/CYBBlock.hpp:19-22 | a header field read back from the bytes it was stored in is the value stored, for every value that fits its width |
| VirtualMemories.VirtualMemory.Commit | Engine/Platform/System/Posix/CYBPosixVirtualMemory.cpp:18-25 | succeeds exactly for sizes already committed, or within the reservation when the system grants the pages; the commit size changes only on success and never shrinks |
| Locking.LockGuard.constructor | Engine/API/ExtendedTypes/LockGuard.inl:3-8 | takes the mutex, or takes over a lock already held |
| Locking.LockGuard.Release | Engine/API/ExtendedTypes/LockGuard.inl:22-31 | unlocks a mutex that is held, once; a second release does nothing |
| BlockTable.SpliceKeepsTiling | Engine/Engine/Memory/CYBBlock.cpp:98-107 | after a split the blocks still tile the region, with left and right links inverse |
| BlockTable.MergeKeepsTiling | Engine/Engine/Memory/CYBBlock.cpp:109-119 | after a merge into the left neighbour the blocks still tile the region |
| BlockTable.CarveKeepsTiling | Engine/Engine/Memory/CYBLargeBlock.cpp:26-33 | after carving from the sentinel the blocks tile the region up to the new sentinel |
| BlockTable.UncarveKeepsTiling | Engine/Engine/Memory/CYBLargeBlock.cpp:43-46 | when the sentinel eats its left neighbour the rest still tiles the region |
| BlockTable.SpliceThenMerge | Engine/Engine/Memory/CYBBlock.cpp:98-119 | splitting a block and merging the parts again gives back the same blocks |
| BlockTable.CarveThenUncarve | Engine/Engine/Memory/CYBLargeBlock.cpp:26-46 | carving from the sentinel and letting it eat the new block gives back the same blocks |
| Blocks.SetSize | Engine/Engine/Memory/CYBBlock.cpp:80-83 | the size changes and the free bit beside it in the same word does not; no other header changes |
| Blocks.SetFree | Engine/Engine/Memory/CYBBlock.cpp:84-89 | the free bit changes and the size in the same word does not; no other header changes |
| Blocks.NewBlock | Engine/Engine/Memory/CYBBlock.cpp:12-39 | writes one header with packed size, free bit and offset to the left, and nothing outside its 8 bytes |
| Blocks.HeaderWords | Engine/Engine/Memory/CYBBlock.cpp:30-58 | the second word of a header is the size, plus 2^31 for a free block; the third is the distance to the left neighbour |
| Blocks.WriteFrame | Engine/Engine/Memory/CYBBlock.cpp:80-119 | a header write, or any write inside a free block, leaves every free-list link and every byte of a block in use unchanged |
| Blocks.Splice | Engine/Engine/Memory/CYBBlock.cpp:98-107 | three header writes in memory amount to the split of the table; links, live bytes and the sentinel's space stay |
| Blocks.EatLeftBlock | Engine/Engine/Memory/CYBBlock.cpp:109-119 | two header writes amount to the merge of the table; all four assertions hold; links, live bytes and the sentinel's space stay |
| Blocks.AllocateBlock | Engine/Engine/Memory/CYBLargeBlock.cpp:26-33 | the old sentinel header becomes a block, a new sentinel follows with exactly the rest of the space; links and live bytes stay |
| Blocks.NewLargeBlock | Engine/Engine/Memory/CYBLargeBlock.cpp:15-24 | writes a header of size 0 with the free bit, and the remaining size behind it |
| Blocks.EatLeftOfLargeBlock | Engine/Engine/Memory/CYBLargeBlock.cpp:43-46 | the sentinel moves to the block on its left and the committed bytes still add up; the other blocks in use keep their bytes |
| FreeLists.LinkFrame | Engine/Engine/Memory/CYBHeap.cpp:27-43 | writing a free-list link changes no header, no other link and no byte of a block in use |
| Heaps.Heap.AddToFreeList | Engine/Engine/Memory/CYBHeap.cpp:27-36 | following the links visits the old list with the block inserted behind its predecessor |
| Heaps.Heap.RemoveFromFreeList | Engine/Engine/Memory/CYBHeap.cpp:38-43 | following the links visits the old list without the block |
| Heaps.Heap.Create | Engine/Engine/Memory/CYBHeap.cpp:4-17 | a heap over the initial commit, at least 25 bytes, or the exception of a refused commit |
| Heaps.Heap.MergeBlockIfPossible | Engine/Engine/Memory/CYBHeap.cpp:64-77 | merges exactly when there is a free left neighbour and the sum fits, takes the block out of the list, and changes nothing a client sees |
| Heaps.Heap.LargeBlockNeedsAtLeast | Engine/Engine/Memory/CYBHeap.cpp:45-62 | the sentinel gets more than was asked for, and what was missing with 24 and 1000 bytes is committed; or, exactly if that is beyond the reservation or refused, nothing has changed |
| Heaps.Heap.TakeFit | Engine/Engine/Memory/CYBHeap.cpp:93-107 | the block becomes live, whole with less than 32 bytes to spare and else with the wanted size, its rest takes its place in the free list, no other block changes |
| Heaps.Heap.CarveSentinel | Engine/Engine/Memory/CYBHeap.cpp:116-120 | a new live block of the wanted size; no other block changes |
| Heaps.Heap.PassBlock | Engine/Engine/Memory/CYBHeap.cpp:89-112 | passing a block that is too small keeps the cursor pair linked, shortens the list or moves the cursor on, and changes nothing a client sees |
| Heaps.Heap.AllocImpl | Engine/Engine/Memory/CYBHeap.cpp:79-121 | terminates; the heap invariant holds after it; a fresh block, from the sentinel of just the aligned size, from the free list of that size or with less than 32 bytes to spare, and nothing else changed for clients; it fails exactly when the scan finds nothing and memory is not to be had, and then contents and commit size are unchanged |
| Heaps.Heap.ExtendInPlace | Engine/Engine/Memory/CYBHeap.cpp:134-146 | the block grows in place with its bytes as a prefix, no other block changes; exactly when pages are needed and not to be had, nothing has changed |
| Heaps.Heap.Absorb | Engine/Engine/Memory/CYBHeap.cpp:140-145 | a live block takes in the one on its right and keeps its own bytes in front |
| Heaps.Heap.FreeImpl | Engine/Engine/Memory/CYBHeap.cpp:148-158 | the block leaves the live ones and no other changes; the program halts exactly when the left neighbour is free and the two sizes and 16 bytes sum up to INT_MAX or more, and then nothing was written |
| Heaps.Heap.Alloc | Engine/Engine/Memory/CYBHeap.cpp:182-195 | null for 0, the two violations for negative and too large requests, otherwise an aligned fresh block or the allocation failure with all contents unchanged; the mutex is free at the end of every path |
| Heaps.Heap.Free | Engine/Engine/Memory/CYBHeap.cpp:223-229 | nothing for null; otherwise exactly this block is gone and the mutex is free, or the program halts under the exact condition |
| Heaps.Heap.Copy | Engine/Engine/Memory/CYBHeap.cpp:130 | the unlocked copy is exact whatever the other threads do to the heap before each byte; it halts exactly when one of their frees does; blocks nobody else uses are untouched either way |
| Heaps.Heap.MoveBlock | Engine/Engine/Memory/CYBHeap.cpp:128-132 | the state after copy and free, or that a free halts, is MoveResult of the state and the schedule; the new block begins with the old bytes, the old one is gone and blocks nobody else uses are untouched; when a free halts the old block is still there |
| Heaps.Heap.ReallocImpl | Engine/Engine/Memory/CYBHeap.cpp:122-147 | a block that borders the sentinel stays where it is, gets the aligned request and 16 bytes, and the guard still holds the lock; any other moves to another block, found as by an allocation of the aligned request; the result holds the old bytes as a prefix; a failure leaves all contents unchanged; it halts exactly when a free does, of this thread or another |
| Heaps.Heap.Realloc | Engine/Engine/Memory/CYBHeap.cpp:197-221 | the API's cases: null, zero, negative, too large, large enough already, grown at the same address beside the sentinel and never halted there, moved to another address, refused, halted, each with its result, the state of the heap and the contents it leaves, under every schedule; blocks that are neither the caller's nor the other threads' are untouched |
| Heaps.Heap.Perform | Engine/Engine/Memory/CYBHeap.cpp:182-229 | each step of another thread has its own effect on the contents (one new block whenever it can be afforded, a block grown in place exactly then, one block less, one byte), leaves the blocks those threads do not use untouched and the heap as Act says; only the free of one of their own blocks halts, and then writes nothing |
| OtherThreads.Act | Engine/Engine/Memory/CYBHeap.cpp:182-229 | the abstract step keeps the heap well formed, and every block that is not theirs live, of the same size and not theirs |
| Heaps.Heap.Interfere | Engine/Engine/Memory/CYBHeap.cpp:182-229 | any number of such steps does what ActAll says, and halts exactly if one of them does |
| Heaps.Heap.Write | Engine/API/Interfaces/Heap.hpp:8-17 | a byte written by a client into its block changes that byte of that block, no header, no link, no other block |
| Heaps.Heap.WalkImpl | Engine/Engine/Memory/CYBHeap.cpp:160-175 | in every state the operations reach the walk succeeds |
| Heaps.Heap.WalkBlocks | Engine/Engine/Memory/CYBHeap.cpp:162-169 | every left link agrees with the block met before, and the number of free blocks met is the length of the free list |
| Heaps.Heap.WalkFreeList | Engine/Engine/Memory/CYBHeap.cpp:171-174 | the free list holds only free blocks, and the check of its length succeeds exactly for the right count |
| Heaps.FreeListCount | Engine/Engine/Memory/CYBHeap.cpp:162-174 | the number of free blocks is the length of the free list |
| HeapModel.MergeKeepsWellFormed | Engine/Engine/Memory/CYBHeap.cpp:64-77 | a merge in mid-scan keeps the heap well formed and the live blocks as they are |
| HeapModel.ScanStep | Engine/Engine/Memory/CYBHeap.cpp:89-112 | passing a small block leads to the same result of the scan, with a shorter list or a cursor further on, wherever the merge moves the cursor |
| HeapModel.ScanKeeps | Engine/Engine/Memory/CYBHeap.cpp:89-112 | the scan keeps the heap well formed, its live blocks, its sentinel and its order, and what it finds is a large enough block of the list |
| HeapModel.ScanFinds | Engine/Engine/Memory/CYBHeap.cpp:89-112 | when the blocks too small for the request are ordered the scan finds a block whenever one at or behind the cursor fits, although merges move the cursor |
| FirstFits.FirstFitIff | Engine/Engine/Memory/CYBHeap.cpp:88-112 | the scan returns the first block that fits, or none if none does, with the heap as it was, exactly when no block in front of it passes the guard of MergeBlockIfPossible |
| FirstFits.FirstFitTakenIff | Engine/Engine/Memory/CYBHeap.cpp:88-112 | with merges on the way, in a list without forward jumps in front of the first fit, that block is taken exactly unless neighbours in front of it make one that is large enough and, behind these in the list, another block is merged into one before them |
| FirstFits.TakenFrom | Engine/Engine/Memory/CYBHeap.cpp:89-112 | the same from any place of the cursor in front of which no block is left to merge; a block is always found |
| FirstFits.MergeKeepsOvertaken | Engine/Engine/Memory/CYBHeap.cpp:64-111 | whether the first fit is overtaken does not change by a merge and the jump of the cursor |
| FirstFits.OrderedIsBackward | Engine/Engine/Memory/CYBHeap.cpp:108-111 | in a list ordered for the request no merge in front of the first fit jumps forward |
| HeapModel.TakeKeeps | Engine/Engine/Memory/CYBHeap.cpp:93-107 | taking a block makes it live with less than 32 bytes too many and leaves the other live blocks alone |
| HeapModel.TakeSplitsIff | Engine/Engine/Memory/CYBHeap.cpp:93-107 | exactly with 32 bytes to spare the block is split: it gets the wanted size, and a free block of at least 16 bytes takes its place in the list |
| HeapModel.CarveKeeps | Engine/Engine/Memory/CYBHeap.cpp:114-120 | carving makes one new live block, keeps the invariant, and the committed size as it is |
| HeapModel.AllocateKeeps | Engine/Engine/Memory/CYBHeap.cpp:79-121 | the abstract effect of an allocation: one fresh block, 1 to 32 bytes larger than the request, or no change to live blocks, sentinel and commit |
| HeapModel.AllocateTight | Engine/Engine/Memory/CYBHeap.cpp:82-120 | a block from the sentinel has just the aligned size, one from the list that size or less than 32 bytes more |
| HeapModel.AllocateFromEndIff | Engine/Engine/Memory/CYBHeap.cpp:45-62 | when no free block is found, an allocation fails exactly when its size and 24 bytes are not left and what is missing, and 1000 bytes, are beyond the reservation or refused; else just that is committed |
| HeapModel.AllocateReuses | Engine/Engine/Memory/CYBHeap.cpp:88-121 | no memory is committed and the sentinel is not touched while a free block fits and the blocks too small for the request are ordered |
| HeapModel.AllocateSucceeds | Engine/Engine/Memory/CYBHeap.cpp:45-62 | a request succeeds whenever the reservation has room for it plus 1024 bytes and pages are granted |
| HeapModel.ReleaseKeeps | Engine/Engine/Memory/CYBHeap.cpp:148-158 | freeing keeps the heap well formed and removes exactly this block from the live ones |
| HeapModel.FreedIsNext | Engine/Engine/Memory/CYBHeap.cpp:153-157 | a block freed without a free left neighbour becomes the head of the list and is what the next allocation takes that it is large enough for |
| HeapModel.FreedJoinsLeft | Engine/Engine/Memory/CYBHeap.cpp:150-151 | a block freed beside a free left neighbour adds its size and 16 bytes to it; the list and the block on the right stay as they are |
| HeapModel.ReleaseKeepsOrderIff | Engine/Engine/Memory/CYBHeap.cpp:150-156 | freeing keeps the list ordered exactly unless the block joins two free neighbours of which the right one is earlier in the list |
| HeapModel.StretchKeeps | Engine/Engine/Memory/CYBHeap.cpp:134-145 | carve plus merge grows the last block by the lacking bytes and one header and keeps the invariant and the committed size |
| HeapModel.ExtendKeeps | Engine/Engine/Memory/CYBHeap.cpp:134-145 | growing in place leaves the block one header larger than the aligned request and the other live blocks unchanged |
| HeapModel.PlanIff | Engine/Engine/Memory/CYBHeap.cpp:122-147 | a reallocation keeps a large enough block, extends one that borders the sentinel if it can be afforded and moves any other if there is a block for it; what each leaves of the live blocks |
| HeapModel.InitialWellFormed | Engine/Engine/Memory/CYBHeap.cpp:4-12 | a fresh heap is well formed, ordered, without live blocks, and accounts for its whole commit |
| HeapProperties.WalkMeetsAll | Engine/Engine/Memory/CYBHeap.cpp:163-168 | following RightBlock from the left meets every block once, in address order, and footprints add up to the distance covered |
| HeapProperties.Conservation | Engine/Engine/Memory/CYBHeap.cpp:45-62 | footprints of all blocks, the sentinel's header and its remaining size add up to the commit size |
| HeapProperties.LiveRegionsDisjoint | Engine/API/Interfaces/Heap.hpp:8-17 | live payloads do not overlap, are 8-aligned and lie in committed memory |
| HeapProperties.MergeGuardIsAssertion | Engine/Engine/Memory/CYBHeap.cpp:71 | the guard with <= and the assertion with < in EatLeftBlock agree in every well-formed heap |
| HeapProperties.FieldsFit | Engine/Engine/Memory/CYBBlock.hpp:21-22 | every size fits 31 bits and every offset 32 bits |
| HeapProperties.EveryRunKeeps | Engine/Engine/Memory/CYBHeap.cpp:79-158 | every sequence of calls, aligned requests of moving reallocations included, keeps the heap well formed, within its reservation and with a commit that never shrinks |
| HeapProperties.FreeCanHalt | Engine/Engine/Memory/CYBHeap.cpp:150-151 | two allocations of 1.2 GB and their frees, left one first, reach the failing assertion |
| HeapProperties.FittingBlockSkipped | Engine/Engine/Memory/CYBHeap.cpp:108-111 | after nine calls an allocation of 48 bytes fails, the pages being refused, while a free block of 64 bytes exists |
| HeapProperties.AnotherFitTaken | Engine/Engine/Memory/CYBHeap.cpp:88-112 | after the same calls an allocation of 40 bytes takes the block of 48 bytes at the end of the list although one of 64 bytes stands before it |
| HeapProperties.FirstFitOvertaken | Engine/Engine/Memory/CYBHeap.cpp:88-112 | after twelve calls the list is ordered and an allocation of 40 bytes does not take the first block that is large enough |
| SemaphoreModel.CountUnreleased | Engine/Platform/System/CYBSemaphore.cpp:22-28 | the threads not yet released are as many as the tickets from FWakeCount + 1 to FServiceCount - 1 |
| SemaphoreModel.EventKeeps | Engine/Platform/System/CYBSemaphore.cpp:4-50 | every step, also one in which FWakeCount runs over, keeps tickets distinct and at least as many threads awake as released, for any choice of woken thread and any spurious wake |
| SemaphoreModel.EventKeepsIntervalIff | Engine/Platform/System/CYBSemaphore.cpp:4-50 | a step keeps the unreleased tickets an unbroken interval exactly unless FWakeCount runs over and a ticket above its new value has left |
| SemaphoreModel.PassingOnKeeps | Engine/Platform/System/CYBSemaphore.cpp:28-39 | a thread woken out of turn loses no wakeup because it signals again before it sleeps |
| SemaphoreModel.LeavingKeeps | Engine/Platform/System/CYBSemaphore.cpp:36-47 | leaving, with or without the reset of the counters, strands nobody |
| SemaphoreModel.EnterKeeps | Engine/Platform/System/CYBSemaphore.cpp:19-34 | a new ticket keeps the invariant, also when the thread passes without waiting |
| SemaphoreModel.ReachableStates | Engine/Platform/System/CYBSemaphore.cpp:4-50 | in every reachable state no wakeup is lost; as long as FWakeCount has not run over, FWakeCount + FSleepCount >= FServiceCount - 1 |
| SemaphoreModel.SignalNReleasesIff | Engine/Platform/System/CYBSemaphore.cpp:11-17 | SignalN(n) releases exactly the min(n, unreleased) threads with the lowest tickets and takes no release back: exactly when FWakeCount does not run over, or nobody is left to release and the new count covers all who are |
| SemaphoreModel.RevokesIff | Engine/Platform/System/CYBSemaphore.cpp:4-17 | a signal takes a release back exactly when FWakeCount runs over to below a released ticket |
| SemaphoreModel.SignalNWakes | Engine/Platform/System/CYBSemaphore.cpp:14-15 | n wakes leave min(awake + n, all) threads awake |
| SemaphoreModel.SignalAllReleasesIff | Engine/Platform/System/CYBSemaphore.cpp:4-9 | SignalAll releases every waiting thread, whatever wakes are under way, exactly unless FWakeCount runs over |
| SemaphoreModel.EnterWalksIff | Engine/Platform/System/CYBSemaphore.cpp:22-47 | an entering thread does not wait exactly when Walkers is not 0, and takes one off it |
| SemaphoreModel.WalkersWalk | Engine/Platform/System/CYBSemaphore.cpp:19-50 | of threads that enter one after the other exactly min(how many, Walkers) walk through |
| SemaphoreModel.LeaverTakesRest | Engine/Platform/System/CYBSemaphore.cpp:36-47 | a leaving thread leaves the number of walkers as it is, the last one makes it 0 |
| SemaphoreModel.SurplusIff | Engine/API/Allocatables/Semaphore.hpp:20-25 | SignalN lets more threads to come walk through exactly when FWakeCount does not run over, n exceeds the number of unreleased threads, and somebody is inside or no credit is left; and how far FWakeCount gets ahead of the tickets |
| SemaphoreModel.SignalAllSurplusIff | Engine/Platform/System/CYBSemaphore.cpp:4-9 | SignalAll lets more threads to come walk through exactly when FWakeCount does not run over and some thread inside had been released before; and how far FWakeCount gets ahead of the tickets |
| SemaphoreModel.SignalWithoutWaiters | Engine/Platform/System/CYBSemaphore.cpp:11-28 | after one signal with nobody there the next thread walks through |
| SemaphoreModel.FiveSignalsOneWalker | Engine/Platform/System/CYBSemaphore.cpp:41-47 | of five signals with nobody there one thread takes all and the next one sleeps |
| SemaphoreModel.SignalAllLeavesSurplus | Engine/Platform/System/CYBSemaphore.cpp:4-9 | SignalAll after SignalN(1) with one waiting thread lets one thread to come walk through |
| SemaphoreModel.WrapRevokes | Engine/Platform/System/CYBSemaphore.cpp:13 | a 64-bit overflow of FWakeCount makes a released thread unreleased again |
| SemaphoreModel.WrapRevokesAll | Engine/Platform/System/CYBSemaphore.cpp:6 | the same by SignalAll |
| SemaphoreModel.WrapWithoutWaiters | Engine/Platform/System/CYBSemaphore.cpp:13 | an overflow that breaks no promise, because nobody waits |
| SemaphoreModel.ReleasedCanLeave | Engine/Platform/System/CYBSemaphore.cpp:28-49 | whenever a thread is released, some released thread can leave within two steps |
| SemaphoreModel.PingPong | Engine/Platform/System/CYBSemaphore.cpp:28-39 | without fairness two unreleased threads can pass the wake to and fro for ever while a released one sleeps |
| Semaphores.Semaphore.constructor | Engine/Platform/System/Posix/CYBPosixSemaphore.cpp:11-20 | starts the counters at 1, 0, 0 |
| Semaphores.Semaphore.WakeOne | Engine/Platform/System/Posix/CYBPosixSemaphore.cpp:48-50 | one arbitrary sleeper wakes if there is one |
| Semaphores.Semaphore.SignalAll | Engine/Platform/System/CYBSemaphore.cpp:4-9 | performs the model's event |
| Semaphores.Semaphore.SignalN | Engine/Platform/System/CYBSemaphore.cpp:11-17 | the loop of wakes performs the model's event with min(n, sleepers) sleepers of the scheduler's choice |
| Semaphores.Semaphore.BeginWait | Engine/Platform/System/CYBSemaphore.cpp:19-49 | takes a ticket and blocks or leaves as the model's event; halts exactly when the ticket numbers run over |
| Semaphores.Semaphore.ResumeWait | Engine/Platform/System/CYBSemaphore.cpp:28-49 | on return from EnterCV leaves, or passes the wake on and blocks again, as the model's event |
| LogFormat.IndexOfByte | Engine/API/Types/String/CStyleString.inl:26-35 | the index of the occurrence wanted, or -1 |
| LogFormat.StrippedLine | Engine/Engine/Core/CYBLogger.cpp:101-110 | for every message text the fourth colon of a line ends the level tag, so what follows is a blank and the message, and both assertions hold |
| LogFormat.LineText | Engine/Engine/Core/CYBLogger.cpp:165-195 | the literal text of a line for every level, clock, thread and message |
| LogFormat.LineDetermines | Engine/Engine/Core/CYBLogger.cpp:165-195 | two equal lines have the same level and the same message |
| LoggerModel.WriteAccounts | Engine/Engine/Core/CYBLogger.cpp:123-145 | a partial write moves its bytes, and a completed message, from the batch to the file and loses nothing |
| LoggerModel.FailAccounts | Engine/Engine/Core/CYBLogger.cpp:129-141 | a failed write hands the message and the rest of the batch, in order, to the emergency logger |
| LoggerModel.StepKeeps | Engine/Engine/Core/CYBLogger.cpp:112-146 | for every interleaving: delivered messages, the batch under the file's lock, the batch under the queue's lock and the queue are all messages in order; file and emergency log hold what the deliveries say |
| LoggerModel.EveryRunKeeps | Engine/Engine/Core/CYBLogger.cpp:112-241 | a run keeps the invariant of any state it starts in, and what has been logged stays logged |
| LoggerModel.ReachableStates | Engine/Engine/Core/CYBLogger.cpp:112-241 | the invariant holds in every state a run from the initial one reaches |
| LoggerModel.FileAndPending | Engine/Engine/Core/CYBLogger.cpp:112-146 | in every reachable state, unless a write failed, the bytes of the file followed by all pending lines are the lines of all messages in the order of the calls |
| LoggerModel.WholeImage | Engine/Engine/Core/CYBLogger.cpp:123-145 | messages written whole leave their lines in the file and nothing in the emergency log |
| LoggerModel.FlushSeesAll | Engine/Engine/Core/CYBLogger.cpp:232-241 | an empty queue under both locks means that every message has been delivered |
| LoggerModel.FlushDelivers | Engine/API/Interfaces/Logger.hpp:29-34 | in every run, when Flush returns every message logged before the call is delivered, and in the file unless a write failed |
| LoggerModel.RedirectedText | Engine/Engine/Core/CYBLogger.cpp:101-110 | an entry behind a failed one reaches the emergency logger as a blank and its message, with its level |
| LoggerModel.FailedText | Engine/Engine/Core/CYBLogger.cpp:129-141 | the literal lines that the emergency logger gets for a batch that cannot be written |
| LoggerModel.WriterFinishes | Engine/Engine/Core/CYBLogger.cpp:121-146 | a thread with the file's lock can always finish its batch and release it |
| LoggerModel.LocksCanBeFreed | Engine/Engine/Core/CYBLogger.cpp:112-121 | from every reachable state the lock holders alone can free both locks: no deadlock among EmptyQueue, Flush and Pause |
| LoggerModel.DrainRun | Engine/Engine/Core/CYBLogger.cpp:112-146 | every outcome that the contract of EmptyQueue allows is a run of the state machine in which only the draining thread moves |
| LoggerModel.LogRun | Engine/Engine/Core/CYBLogger.cpp:197-230 | so is every outcome of Log: its drains, if any, and then the message appended or dropped |
| Loggers.Logger.Enqueue | Engine/Engine/Core/CYBLogger.cpp:203-214 | the linked queue gains the entry at its end, with head and tail right |
| Loggers.Logger.WriteMessage | Engine/Engine/Core/CYBLogger.cpp:125-144 | for any partial writes the file gains the message, or a proper prefix of it when a write takes nothing |
| Loggers.Logger.LogShutdownForEntry | Engine/Engine/Core/CYBLogger.cpp:101-110 | the chain's messages reach the emergency logger in order, stripped |
| Loggers.Logger.GiveUp | Engine/Engine/Core/CYBLogger.cpp:129-141 | the notice, the whole failed line, and the rest of the batch reach the emergency logger |
| Loggers.Logger.EmptyQueue | Engine/Engine/Core/CYBLogger.cpp:112-146 | the queue is empty afterwards and every message of it was written whole in order, or from one message on given to the emergency logger, as LoggerModel.DrainRun has it; both locks are free |
| Loggers.Logger.Log | Engine/Engine/Core/CYBLogger.cpp:197-230 | a message is queued exactly when it is not filtered, one of three allocations succeeds and no drain in between failed; a first refusal drains the queue; older messages are queued or delivered, as LoggerModel.LogRun has it |
| Utf8.DecodesFlatten | Engine/API/Types/String/UTF8String.inl:19-42 | a sequence of code points is read back from its bytes, so a valid string has one reading |
| Utf8.ValidIffDecodes | Engine/API/Types/String/UTF8String.inl:19-42 | being a sequence of code points and being cut into them from the left are the same |
| Utf8.CountIsLength | Engine/API/Types/String/UTF8String.inl:84-88 | the bytes that are no continuation are as many as the code points |
| Utf8.ConcatValid | Engine/API/Types/String/UTF8String.inl:44-52 | valid strings concatenate to a valid string whose length is the sum, so += need not validate |
| Utf8.StartByCount | Engine/API/Types/String/UTF8String.inl:54-61 | the start of the k-th code point is the lead byte with k code points before it, and cutting there leaves the first k |
| Utf8.StartUnique | Engine/API/Types/String/UTF8String.inl:54-61 | no other byte has that property |
| Utf8.RfcIff | Engine/API/Types/String/UTF8String.inl:19-42 | Validate's code points are those of section 4 of RFC 3629 and exactly the overlong forms and numbers above U+10FFFF |
| Utf8.RfcTextIff | Engine/API/Types/String/UTF8String.inl:19-42 | a string is well formed under section 4 of RFC 3629 exactly when it decodes, as Validate demands, and no code point of it is overlong or too large |
| Utf8.BeyondTheStandard | Engine/API/Types/String/UTF8String.inl:19-42 | C0 80 and F7 BF BF BF are accepted although the standard has neither |
| Utf8.RfcTextIsValid | Engine/API/Types/String/UTF8String.inl:19-42 | everything well formed under section 4 of RFC 3629 is accepted |
| Utf8Strings.Validate | Engine/API/Types/String/UTF8String.inl:19-42 | true exactly for the sequences of code points |
| Utf8.CodePointIff | Engine/API/Types/String/UTF8String.inl:19-42 | the byte ranges of one code point, of each length |
| Utf8Strings.Masks | Engine/API/Types/String/UTF8String.inl:22-37 | the tests on the byte's value are the bit masks of the code |
| Utf8Strings.Utf8String.CalculateLength | Engine/API/Types/String/UTF8String.inl:84-88 | the cached length is the number of code points |
| Utf8Strings.Utf8String.ByteIndexOfChar | Engine/API/Types/String/UTF8String.inl:54-61 | the byte where the code point with that index starts |
| Utf8Strings.Utf8String.Shrink | Engine/API/Types/String/UTF8String.inl:67-78 | with 0 the string is empty; with more than maxChars + 1 characters it is cut in front of the character at index maxChars and has length maxChars; else it is unchanged |
| Utf8Strings.ShrinkKeepsPromiseIff | Engine/API/Types/String/UTF8String.hpp:101-107 | at most maxChars characters remain exactly when maxChars is 0 or the string had not maxChars + 1 |
| Utf8Strings.ShrinkLeavesTwo | Engine/API/Types/String/UTF8String.inl:71 | Shrink(1) leaves "ab" as it is |
| Utf8Strings.Utf8String.Append | Engine/API/Types/String/DynamicString.inl:105-114 | the bytes of the other string follow, lengths add, validity is kept without a check; a refused allocation changes nothing |
| Utf8Strings.Utf8String.Plus | Engine/API/Types/String/UTF8String.inl:44-46 | the sum of two valid strings passes its validation and lengths add; the only failure is a refused allocation of a sum that is not empty |
| CommandLines.ParseTokens | Engine/Engine/Helpers/CYBCommandLine.cpp:8-44 | the tokens of the arguments in order, empty and missing ones skipped |
| CommandLines.ClassifySpelling | Engine/Engine/Helpers/CYBCommandLine.cpp:21-40 | a token typed with its prefix is classified back to itself exactly when it cannot be mistaken for another kind |
| CommandLines.ParseSpellings | Engine/Engine/Helpers/CYBCommandLine.cpp:8-44 | parsing a spelled-out list of tokens gives back the list |
| CommandLines.TypedKey | Engine/Engine/Helpers/CYBCommandLine.cpp:21-51 | a typed argument is a handler's key exactly if it is its long flag behind two dashes, or its short flag behind a slash or behind a dash without another one following |
| CommandLines.GoodExact | Engine/Engine/Helpers/CYBCommandLine.cpp:49-61 | the keys served are exactly the matching ones with enough plain tokens behind them, in order |
| CommandLines.GoodIff | Engine/Engine/Helpers/CYBCommandLine.cpp:50-61 | a key is served exactly when as many plain tokens follow it as the handler requires, and is short otherwise |
| CommandLines.ParametersExact | Engine/Engine/Helpers/CYBCommandLine.cpp:52-61 | a call gets the entries of the plain tokens behind its key in order, up to the limit or to where they end |
| CommandLines.ShortExact | Engine/Engine/Helpers/CYBCommandLine.cpp:64-65 | the keys complained about are exactly the matching ones that lack tokens, in order |
| CommandLines.ComplaintsExact | Engine/Engine/Helpers/CYBCommandLine.cpp:64-65 | and each complaint names its key |
| CommandLines.CollectNormal | Engine/Engine/Helpers/CYBCommandLine.cpp:55-61 | takes exactly the next min(run length, limit) plain tokens |
| CommandLines.CollectFor | Engine/Engine/Helpers/CYBCommandLine.cpp:52-61 | a key has enough tokens exactly when the run behind it is as long as required, and then gets min(run, required + optional) of them |
| CommandLines.RunHandler | Engine/Engine/Helpers/CYBCommandLine.cpp:46-70 | whatever the callback answers from call to call: it is called for exactly the first maxInvocations served keys or up to the first refusal, each with its tokens, and exactly the scanned keys that lack tokens are complained about |
| CommandLines.NoTokenTwice | Engine/Engine/Helpers/CYBCommandLine.cpp:49-69 | the tokens of one key end before the next key, so no token goes to two calls |

## Left out

- HeapModel.AllocateReuses: one direction only; whether a forward jump in a disordered list passes over every fitting block depends on the sizes and list positions of all blocks the scan merges, which no simpler condition than the scan itself captures.
- Heaps.Heap.Realloc: with other threads acting between release and free it says what the caller's block and the blocks of threads at rest hold and that the heap's invariant holds; what the acting threads do to the bytes of their own blocks is said step by step by Perform.
- FirstFits.FirstFitTakenIff: for lists whose blocks in front of the first fit stand behind their free left neighbours and make blocks of at most INT_MAX bytes; in other lists forward jumps, and merges refused for their size, decide as well, and only FirstFitIff and the runs speak about them.
- Loggers.Logger.EmptyQueue: the drain of one thread without others; interleavings are in LoggerModel, where Flush, Pause and concurrent drainers are.
- Locking.LockGuard.constructor: the mutex is free, or held already if so declared; waiting for another thread is a step of the state machines instead.
- Utf8Strings.Utf8String.Shrink: not for negative AMaxChars, for which ByteIndexOfChar gives -1 and the code writes in front of the buffer.
- Utf8Strings.Utf8String.Append: the other string is not the string itself, for which the copy would read what it overwrites.
- Debug layout: magic words, Validate on blocks, and the test hook AllocCheck.
- Mutex and condition variable are atomic steps of a sequentially consistent machine; fences are not modelled.
- The move constructor and move assignment of LockGuard.
- Heap::Lock, Unlock, the allocation counters and page discarding: unimplemented or plumbing.
- Reserving address space, opening the log file, sleeping and thread start-up; a refused reservation or file is the caller's exception.
- The clock and sprintf: the fields of a time stamp are arbitrary strings without a colon.
- The logger's memory comes from its own heap; here each allocation is granted or refused by a parameter, and entries are not given back to that heap.
- The logger thread's loop and its pause and cancel flags: draining may start at any moment.
- UTF8::SubString passes an end index where a length is expected, so it has no clean contract.
- Strings longer than INT_MAX and strings that were moved from.
- The callback's text for a missing parameter is its key only; the fixed prefix of the warning is not stored.
- Modules, processes, consoles, paths, files beyond Write, and the interop layer.
