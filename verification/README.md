# Shiro kernel model

Shiro is a small 32-bit x86 kernel. This project models the connected core of it in Dafny and proves what
that core keeps over whole runs. All components work on one shared memory (`Words.Ram`: a 32-bit word at
each aligned byte address), so what one component promises is what the next one relies on.

| file | models |
|---|---|
| `Words.dfy` | 32-bit words, wrap-around, the shared memory |
| `HeapSpec.dfy`, `HeapMemory.dfy`, `Heap.dfy`, `HeapRuns.dfy` | the first-fit allocator: block lists, headers in memory, the loops, whole histories |
| `SchedSpec.dfy`, `SchedRuns.dfy` | the task table as a value, and the laws of every run |
| `Cpu.dfy`, `Stacks.dfy`, `Scheduler.dfy` | `switch_task` instruction by instruction, stacks in memory, the scheduler with its timer |
| `Tags.dfy`, `Multiboot.dfy` | the multiboot2 tag chain and what is read from it |
| `PmmSpec.dfy`, `Pmm.dfy` | the page bitmap |
| `Kernel.dfy`, `System.dfy` | boot order, why no byte has two owners, and the whole kernel with its tasks running |
| `Mkinitrd.dfy`, `Initrd.dfy` | the ramdisk packer and its reader |
| `Lines.dfy`, `Terminal.dfy`, `Commands.dfy` | line splitter, scrollback, `cat` and the boot script from end to end |

The main results:

- **Heap.** The linked headers in memory always form one tiling with exact counters. The list is a function
  of the live allocations alone (`Canonical`), from which follow that frees commute, that a free undoes an
  allocation and that freeing everything restores the initial block. A second free is harmless after any
  number of merges and of stores into whatever blocks are live, as long as nothing was allocated in between.
- **Scheduler.** Pushing and popping on heap-allocated stacks refines an abstract map from task to saved
  context. A READY task waits at most n - 1 choices; a sleeper is never early unless the tick counter wraps.
- **Boot.** Modules, heap blocks and pages handed out never overlap, in every reachable state.
- **Whole kernel.** Ticks, yields, sleeps, spawns, heap and page calls and stores, in any order and by any
  task, keep all of this together over one heap and one memory (`SystemModule.System`).
- **Ramdisk.** Packer and reader undo each other exactly for names of at most 31 bytes.
- **Text.** The buffer loops of `cat` and of the boot script equal a split-and-cut function, and the screen
  rows are a window over a log.

The methods are proved against specification functions. What such a function comes to in words, bytes, cells and
plain numbers is stated by laws that do not mention it, or mention it only as the thing described: the members
called `...SpelledOut`, `NextTag`, `LastTagTells`, `NewestRow`, the `cat` rows (`CatMissing` and its neighbours), and
small concrete runs (`FirstAlloc`, `OddTagScan`, `StartOneMap`, `FourSpawned`, `FourLineScript`).

## Where the code does not do what it says

The model follows the code. Each of these is stated exactly, with a condition or a concrete case:

- `Round` wraps above 0xFFFFFFF8 to 0, so such a request is answered with a block of zero bytes or of slack
  (`RoundCoversRequest`, `RequestIsHeld`).
- "Each non-comment, non-empty line" of init.sh is run only if no line is cut at 79 bytes or at a NUL: the tail
  of a long comment runs as a command, a long command runs in pieces, a command with a NUL runs in part
  (`ScriptAsDocumented`, `LongCommentRuns`, `NulCutsCommand`).
- "Find a file by exact name" never finds a name longer than 31 bytes, and finds a file with a longer name under
  the first 31 bytes of it (`FindIsExact`, `PackedFileIsFound`, `LongerFileFound`, `CatPrintsLongerFile`).
- Preemption does not happen every fifth tick: the flag that guards against re-entrance stays up while the
  preempted task is suspended, so the first preemption after boot can be the last (`TickPreempts`,
  `NoSecondPreemption`, `PreemptedOnceForAll`).
- The fallback of `PickNext` is not "only us is runnable" but also "nothing is": a sleeper alone keeps running
  (`SleepNeedsSomeoneElse`, `LoneSleeperRunsOn`).
- `Sleep` multiplies in 32 bits (`SleepLengthExact`), and deadlines are compared without regard to tick
  wrap-around, so a sleep across it is over at once (`DeadlineHolds`, `SleepsItsTicks`,
  `WrappedSleepReturnsAtOnce`) and a deadline just before it can be missed for a whole turn of the counter
  (`DueUntilWrap`, `OversleepsAcrossWrap`).
- Ranges of physical memory are rounded in 64 bits, which can wrap, and page numbers are cast to 32 bits, so
  some ranges free or reserve the wrong pages (`FreesInsideExactly`, `ReservesTouchedExactly`, with the
  concrete cases `CastFreesTheWrongPage`, `StartWraps`, `EndWraps` and `EmptyRangeReserves`).
- The heap is started without asking whether its region fits below 2^32 (`Heap.Start`, `AlignedBaseExact`,
  `LastPageWraps`).
- The heap is moved past the boot modules but not past the boot information. Information clear of the first heap
  header is read correctly by page manager and ramdisk (`Kernel.Boot`), and information clear of the whole heap
  also later (`Kernel.StartShiro`); information that begins where the heap does is lost (`Kernel.BootOverInfo`).
- `FreePage` recognises a page already free, but not a page that was never handed out: exactly then the
  manager's promises are lost (`Pmm.FreePage`), and a page of the kernel or the heap comes back from the next
  `AllocPage` (`ReturnKernelPage`, `ReturnZeroAfterStart`, `Kernel.ReturnHeapPage`).

## What is assumed

- Words are stored on word boundaries, and boot information starts on one. Modules may start anywhere. The chain of
  tags lies below 2^32.
- Tags are as the Multiboot2 Specification version 2.0 has them (sections 3.6.2, 3.6.6, 3.6.8): at least
  8 bytes; modules, basic memory sizes and memory maps at least 16; map entries at least 24 bytes and a multiple of 4;
  framebuffer tags at least 32. A module has start > 0 and start + 8 <= end.
- The kernel starts at 1 MiB and ends above it, as the linker script (src/src/boot/linker/linker.ld:4-38) arranges.
- Task 0's stack and the task table lie below the heap, below all boot modules, and apart from each other.
- At a switch the running task has 28 bytes of stack left. A task's entry address differs from the two
  return addresses of `switch_task`; these two, `IN_YIELD` and `IN_PREEMPT`, stand for what runs after them.
- `Yield`, `Sleep` and `Spawn` are atomic with respect to the timer.
- Text handed to the terminal is the bytes before its NUL. File lists come in the order of their names'
  UTF-8 bytes, which is the code-point order Python sorts by; names contain no NUL.

## Model

| member | source | states |
|---|---|---|
| HeapModule.Heap.Alloc | src/src/classes/heap.class.h:108-143 | Exact first fit over the in-memory headers: null exactly when the heap is down or no free block holds the rounded request; otherwise the payload of the lowest block that does, with the block list, call counter and request map changed accordingly, every live payload word for word intact, and nothing written outside the heap |
| HeapModule.Heap.Free | src/src/classes/heap.class.h:151-191 | Null, a pointer with no magic in front (at any byte address) and a block marked free change nothing; a live block is released and merged with both free neighbours; every other live payload and every stale free header survives, and `Valid` (list, tiling, no two free neighbours, counters) is kept |
| HeapModule.Heap.Start | src/src/classes/heap.class.h:67-90 | One free block over the whole region, placed at the page-aligned maximum of the hint and the kernel end; only its 16 header bytes are written. The result is a heap if and only if that region lies above address 0 and ends below 2^32, for every hint and kernel end |
| HeapModule.Heap.Take | src/src/classes/heap.class.h:120-138 | Once a block is chosen: split or taken whole, marked used, counters charged, invariant kept |
| HeapModule.Heap.SplitIfSlack | src/src/classes/heap.class.h:117-131 | A free tail is cut off exactly when more than 32 bytes are left over, and then a header's worth leaves the free count |
| HeapModule.Heap.ReleaseBlock | src/src/classes/heap.class.h:167-190 | Release of a known live block: new list, exact counters, old header stays readable as a free one |
| HeapModule.Heap.Coalesce | src/src/classes/heap.class.h:167-190 | Clearing `used` and merging forward then backward yields the list with the whole free run as one block, and writes at most five header fields |
| HeapModule.Heap.MergeForward | src/src/classes/heap.class.h:172-179 | A free successor is absorbed, or only `used` is cleared |
| HeapModule.Heap.Predecessor | src/src/classes/heap.class.h:181-184 | The linear walk finds the block whose `next` is the released one, null for the first |
| HeapModule.Heap.MergeBackward | src/src/classes/heap.class.h:185-190 | A free predecessor absorbs the block; otherwise memory is untouched |
| HeapModule.HeapBaseFacts | src/src/classes/heap.class.h:67-73 | A region that fits starts on a page boundary past both the hint and the kernel end |
| HeapModule.AlignedBaseExact | src/src/classes/heap.class.h:71-73 | The 32-bit rounding of the base is the page boundary above it, or 0 exactly when that boundary is 2^32 |
| HeapModule.LastPageWraps | src/src/classes/heap.class.h:67-74 | Concrete failure: a hint above 0xFFFFF000 puts the heap at address 0 |
| HeapSpec.RoundCoversRequest | src/src/classes/heap.class.h:96-100 | `Round` covers the request if and only if it is at most 0xFFFFFFF8; above that it yields 0 |
| HeapSpec.TiledIsOrdered | src/src/classes/heap.class.h:67-191 | Blocks of a tiling never overlap and stay inside the region |
| HeapSpec.HeadersAligned | src/src/classes/heap.class.h:92-100 | In an aligned region every header and size is a multiple of 8 |
| HeapSpec.BytesConserved | src/src/classes/heap.class.h:67-191 | Used bytes, free bytes and 16 per block add up to the region |
| HeapSpec.CarveWellFormed | src/src/classes/heap.class.h:108-143 | An allocation keeps tiling and the absence of adjacent free blocks |
| HeapSpec.CarveLive | src/src/classes/heap.class.h:108-143 | An allocation adds exactly one live block, at an address no live block has |
| HeapSpec.ReleaseWellFormed | src/src/classes/heap.class.h:151-191 | A release keeps tiling and leaves no two free neighbours |
| HeapSpec.ReleaseLive | src/src/classes/heap.class.h:151-191 | A release removes exactly one live block |
| HeapSpec.Canonical | src/src/classes/heap.class.h:67-191 | Two well-formed lists over one region with the same live allocations are equal |
| HeapSpec.FreeUndoesAlloc | src/src/classes/heap.class.h:108-191 | Releasing what was just allocated gives back the very list there was before, split or not |
| HeapSpec.FreeAllLive | src/src/classes/heap.class.h:151-191 | A history of frees removes exactly the freed addresses and keeps the list well-formed |
| HeapSpec.FreeOrderIrrelevant | src/src/classes/heap.class.h:151-191 | Any two histories that free the same set of addresses, in any order and with repeats, end in the same list |
| HeapSpec.FreeEverything | src/src/classes/heap.class.h:67-191 | Freeing all live blocks leaves the single block `Start` made |
| HeapMemory.ChainSplice | src/src/classes/heap.class.h:38-44 | Replacing a stretch of blocks by another chain over the same bytes keeps the linked headers of the whole heap |
| HeapMemory.PayloadWritesKeepHeap | src/src/classes/heap.class.h:38-44 | Word-aligned stores inside a live payload disturb no header, current or stale |
| HeapMemory.LastWord | src/src/classes/heap.class.h:92-100 | A word that begins inside a payload ends inside it, because payload ends are aligned |
| HeapMemory.ParkedStays | src/src/classes/heap.class.h:151-191 | A stale free header stays one when another block is released |
| HeapMemory.ReleasedIsParked | src/src/classes/heap.class.h:167-190 | A released block's header, even merged away, keeps its magic and reads as free |
| HeapMemory.ParkedIsNotLive | src/src/classes/heap.class.h:151-165 | A header that reads as released is never that of a live block |
| HeapRuns.BoundedWaste | src/src/classes/heap.class.h:96-143 | In every reachable heap the bytes charged are at least the sum of the rounded requests and exceed it by at most 32 per live block |
| HeapRuns.SlimTotal | src/src/classes/heap.class.h:108-143 | The same bound for any block list and request map |
| HeapRuns.NothingLost | src/src/classes/heap.class.h:67-191 | In every reachable heap used + free + 16 per block is HEAP_SIZE, alloc_count - free_count (mod 2^32) is the number of live blocks, and all blocks are 8-aligned |
| HeapRuns.RequestIsHeld | src/src/classes/heap.class.h:96-143 | The block handed out holds the bytes asked for if and only if the request is at most 0xFFFFFFF8 |
| HeapRuns.AllocThenFree | src/src/classes/heap.class.h:108-191 | On the real heap: allocation then release restores the list and both byte counters |
| HeapRuns.FreeEach | src/src/classes/heap.class.h:151-191 | On the real heap: releasing a list of pointers, null and repeats allowed, is the history `FreeAll` of their headers |
| HeapRuns.Take | src/src/classes/heap.class.h:151-191 | One step of a history, a release or a store into a block live at that moment, leaves the rest of the history lawful and every stale header stale |
| HeapRuns.ReleaseThenHistory | src/src/classes/heap.class.h:151-191 | After p is freed, and after any further frees and stores without an allocation, each store going to whatever block is live at that moment, p is still an acceptable argument of Free and not live |
| HeapRuns.FreeAgain | src/src/classes/heap.class.h:156-165 | That second Free changes no field and no word of memory |
| HeapRuns.HeapSpelledOut | src/src/classes/heap.class.h:38-44 | Every heap that is up, in the words of its headers: magic 0x5481B07E, size, used 0 or 1 and the next header's address at offsets 0, 4, 8 and 12; each payload of size bytes begins 16 bytes on and the next header right behind it, the last at the end of 4 MiB; of two neighbours one is in use |
| HeapRuns.AllocSpelledOut | src/src/classes/heap.class.h:108-143 | What the contract of `Alloc` means for the block list, in numbers: the first block that is free and large enough is split if and only if more than 32 bytes are left over, then has n bytes and is followed by a free block of 16 bytes less than the leftover; otherwise it keeps its whole size; no other block changes |
| HeapRuns.FirstAlloc | src/src/classes/heap.class.h:67-143 | Start and one allocation on the real heap, word by word: both headers, their links, and all four counters |
| SchedSpec.PickIsNearest | src/src/classes/scheduler.class.h:185-196 | PickNext falls back to the running task if and only if nothing is runnable; otherwise its choice is runnable and no other runnable task is nearer in cyclic order |
| SchedSpec.YieldKeepsTable | src/src/classes/scheduler.class.h:204-214 | A yield keeps the table: used slots a prefix, ids equal slots, one saved context per task not running, flag up exactly while one task is suspended in PreemptiveYield |
| SchedSpec.PreemptKeepsTable | src/src/classes/scheduler.class.h:113-121 | So does a preemption |
| SchedSpec.SpawnKeepsTable | src/src/classes/scheduler.class.h:132-179 | So does a spawn, which takes slot `spawned_count` |
| SchedRuns.StepKeepsTable | src/src/classes/scheduler.class.h:74-229 | So does every step of every run: tick, yield, sleep, spawn |
| SchedRuns.RunStaysAlive | src/src/classes/scheduler.class.h:185-229 | While task 0 never sleeps, the running task is READY at every moment of every run |
| SchedRuns.YieldStaysAlive | src/src/classes/scheduler.class.h:185-196 | With task 0 READY the fallback of PickNext is never taken |
| SchedRuns.SleepNeedsSomeoneElse | src/src/classes/scheduler.class.h:221-229 | A sleep ends in a READY task if and only if some task is runnable after the caller dozed off |
| SchedRuns.LoneSleeperRunsOn | src/src/classes/scheduler.class.h:185-229 | Concrete failure: the kernel task sleeping alone goes on executing in state SLEEPING |
| SchedRuns.YieldComesCloser | src/src/classes/scheduler.class.h:185-214 | Each choice moves the turn strictly closer to every waiting runnable task, or to it |
| SchedRuns.BoundedWaiting | src/src/classes/scheduler.class.h:185-214 | A READY task runs after at most as many choices as it is slots away, so at most n - 1, for any table size and any run of any length; a task past its deadline too, as long as the tick counter does not wrap meanwhile |
| SchedRuns.DueUntilWrap | src/src/classes/scheduler.class.h:188-194 | A sleeper that is due stays due at the next tick if and only if the counter does not wrap there (or its deadline is 0) |
| SchedRuns.OversleepsAcrossWrap | src/src/classes/scheduler.class.h:185-229 | Concrete failure: a sleeper due at the last tick of the counter, at which no preemption is possible, sleeps on through every run with fewer than 2^32 - 1 further ticks |
| SchedRuns.SavedStays | src/src/classes/scheduler.class.h:204-214 | In every run a suspended task keeps the context it was suspended with until it is chosen |
| SchedRuns.NeverEarly | src/src/classes/scheduler.class.h:185-229 | In any run with fewer ticks than are missing to its deadline a sleeper neither runs nor wakes |
| SchedRuns.DeadlineHolds | src/src/classes/scheduler.class.h:221-229 | For every table and every length: the caller of Sleep is runnable again at once if and only if adding the sleep to the tick counter wraps around |
| SchedRuns.SleepsItsTicks | src/src/classes/scheduler.class.h:221-229 | Otherwise a caller that gave up the processor stays off it, SLEEPING, through every run with fewer ticks than it asked for |
| SchedRuns.WrappedSleepReturnsAtOnce | src/src/classes/scheduler.class.h:221-229 | Concrete failure: at tick 2^32 - 1 Sleep(10) returns in the same tick |
| SchedRuns.SleepLengthExact | src/src/classes/scheduler.class.h:221-229 | Sleep waits ms / 10 ticks (at least 1) if and only if ms is at most 42949672 |
| SchedRuns.TickPreempts | src/src/classes/timer.class.h:71-78 | In every table a tick switches tasks if and only if its number is a multiple of 5, no task waits inside PreemptiveYield, and another task is runnable |
| SchedRuns.NoSecondPreemption | src/src/classes/scheduler.class.h:113-121 | After one preemption no number of ticks takes the CPU from the successor until it yields or sleeps |
| SchedRuns.PreemptedOnceForAll | src/src/classes/scheduler.class.h:113-121 | Concrete failure: after boot, one spawn and five ticks task 1 runs, and no further run of ticks and spawns ever takes the processor from it |
| SchedRuns.RunnableSpelledOut | src/src/classes/scheduler.class.h:185-197 | Who can be chosen: READY, or a sleeper at its deadline or past it |
| SchedRuns.TurnSpelledOut | src/src/classes/scheduler.class.h:185-208 | Every slot a yield passes over, upwards and around, holds nobody who could run; without a switch only the caller's state can change, to READY |
| SchedRuns.YieldSpelledOut | src/src/classes/scheduler.class.h:204-214 | A yield that switches: one more yield counted for the caller, the chosen task READY and current, the caller's context saved, everything else as it was |
| SchedRuns.FallenAsleepSpelledOut | src/src/classes/scheduler.class.h:221-229 | A sleep writes the running task's deadline, in 32 bits, and its state, nothing else |
| SchedRuns.SleepTicksSpelledOut | src/src/classes/scheduler.class.h:224-225 | The ticks are the 32-bit product with 100, in thousandths rounded down, at least 1 |
| SchedRuns.TickSpelledOut | src/src/classes/timer.class.h:71-79 | A timer interrupt adds one to the clock; at multiples of 5 with nobody suspended in a preemption the rest is a yield, otherwise nothing else changes |
| SchedRuns.BootedSpelledOut | src/src/classes/scheduler.class.h:74-104 | Eight slots: the caller in slot 0, seven unused ones numbered 2^32 - 1 |
| SchedRuns.SpawnSpelledOut | src/src/classes/scheduler.class.h:131-176 | The lowest unused slot gets a READY task with the 4096 bytes from its block up as stack and a context of its entry and four zeros; a full table stays as it is |
| SchedRuns.FourSpawned | src/src/classes/scheduler.class.h:74-176 | Four spawns after the start are tasks 1 to 4 on their own 4096-byte stacks, three slots stay unused |
| Stacks.SlotsSpelledOut | src/src/classes/scheduler.class.h:49-61 | The task table is eight slots of 44 bytes one behind the other |
| CpuModule.Cpu.SwitchTask | src/src/boot/asm/switch.asm:15-32 | The nine instructions save four registers below the stack pointer, store that pointer through the first argument, and resume exactly the frame at the second; nothing else is written |
| Stacks.SwitchRefines | src/src/boot/asm/switch.asm:15-32 | The real switch refines the map from task to saved context: the caller becomes resumable with exactly its context, every other suspended task keeps frame and stack, the chosen task finds both as it left them |
| Stacks.OwnStackOnly | src/src/classes/scheduler.class.h:204-214 | Whatever the running task does inside its own stack leaves every suspended task resumable |
| Stacks.HeapWorkKeepsStacks | src/src/classes/heap.class.h:108-191 | Heap work that spares the stacks' payloads leaves every suspended task resumable |
| Stacks.SpawnResumable | src/src/classes/scheduler.class.h:146-172 | A fresh task is resumable at its entry with zeroed registers and an empty stack, others as before |
| SchedulerModule.Scheduler.Start | src/src/classes/scheduler.class.h:74-104 | The table with the caller as task 0 and all other slots unused; only the table is written |
| SchedulerModule.Scheduler.PickNext | src/src/classes/scheduler.class.h:185-196 | The loop with its in-place wake-ups computes the nearest runnable slot and changes at most that slot |
| SchedulerModule.Scheduler.Yield | src/src/classes/scheduler.class.h:204-214 | On real memory: state becomes that of the abstract yield; on a switch the machine has the registers, stack pointer and whole stack the chosen task was suspended with; only the caller's frame and one table cell are written |
| SchedulerModule.Scheduler.Switch | src/src/boot/asm/switch.asm:15-32 | The call of switch_task with its pushed arguments, and the caller dropping them on return |
| SchedulerModule.Scheduler.Sleep | src/src/classes/scheduler.class.h:221-229 | Deadline in 32-bit arithmetic, state SLEEPING, then the yield, with the same guarantees |
| SchedulerModule.Scheduler.PreemptiveYield | src/src/classes/scheduler.class.h:113-121 | A yield under the re-entrance flag; the flag is up afterwards exactly if a task is suspended inside |
| SchedulerModule.Scheduler.TimerInterrupt | src/src/classes/timer.class.h:71-78 | One tick: the clock advances, every fifth may preempt, and a preempted task is resumable like any other |
| SchedulerModule.Scheduler.Spawn | src/src/classes/scheduler.class.h:132-179 | -1, with nothing changed, exactly when the scheduler is down, the table full or no block holds 4096 bytes; otherwise a task on a new heap block that no stack shares, resumable at its entry |
| SchedulerModule.Scheduler.Work | src/src/classes/scheduler.class.h:204-214 | A word-aligned store by the running task to its stack or to a heap block that is nobody's stack keeps heap and all suspended tasks |
| SchedulerModule.Scheduler.New | src/src/classes/heap.class.h:108-143 | Allocating while tasks are suspended keeps every one resumable |
| SchedulerModule.Scheduler.Delete | src/src/classes/heap.class.h:151-191 | So does releasing anything that is not a task's stack |
| SchedulerModule.StackWritesKeepHeap | src/src/classes/scheduler.class.h:204-214 | A context switch disturbs no heap header |
| SchedulerModule.LiveApart | src/src/classes/heap.class.h:67-191 | Two live blocks, hence two task stacks, never share a byte |
| SchedulerModule.WorkIsHarmless | src/src/classes/scheduler.class.h:204-214 | The memory argument behind Work: own stack or unshared block, everything else intact |
| Tags.EncodedIsChain | src/src/libs/multiboot2.h:1-80 | Memory holding an encoded list of tags is a chain of exactly those tags |
| Tags.ChainIsUnique | src/src/classes/multiboot.class.h:66-123 | A walk can find only one list of tags |
| Tags.ChainKept | src/src/classes/multiboot.class.h:66-123 | Writes outside the chain leave it readable |
| Tags.WalkTag | src/src/classes/multiboot.class.h:66-123 | Each step stands on the next tag, strictly closer to the end marker, and collects its map entries in order |
| Tags.EntryRead | src/src/classes/multiboot.class.h:88-105 | The i-th read at entry stride is the i-th memory-map entry and stays inside the tag |
| Tags.NextTag | src/src/classes/multiboot.class.h:116-123 | The tag after one at a multiple of 8 begins at the first multiple of 8 at or past its end |
| Tags.TagWordsAt | src/src/libs/multiboot2.h:22-40 | Type, size and body of a tag are the words at its address, a type is not 0 |
| Tags.ChainEndsAtZero | src/src/classes/multiboot.class.h:66-69 | A chain ends at a tag of type 0 and there only |
| Tags.EntriesFit | src/src/classes/multiboot.class.h:88-105 | A memory map has exactly as many entries as fit behind its 16 bytes of header at its entry size |
| Tags.OneEntry | src/src/classes/multiboot.class.h:88-105 | A 40-byte map of one entry is that entry: 64-bit base and length, low word first, then the type |
| Tags.EntriesJoin | src/src/classes/multiboot.class.h:66-123 | The entries of a chain are those of its tags, in order |
| PmmSpec.SetBit | src/src/classes/pmm.class.h:48-51 | Setting a bit changes that bit only |
| PmmSpec.ClearBit | src/src/classes/pmm.class.h:53-56 | Clearing a bit changes that bit only |
| PmmSpec.FullByte | src/src/classes/pmm.class.h:179-199 | A byte is skipped exactly when all its eight pages are in use |
| PmmSpec.CountFreeUpdate | src/src/classes/pmm.class.h:48-56 | One bit flipped moves the count of clear bits by exactly one, or not at all |
| PmmSpec.FreesInsideExactly | src/src/classes/pmm.class.h:68-87 | For every 64-bit address and size: MarkRangeFree frees exactly the pages wholly inside its range if and only if the range is harmless, a condition on wrap-around of the two sums and on the cast of the page numbers |
| PmmSpec.FreesInside | src/src/classes/pmm.class.h:68-87 | Every range that ends below 2^44 is harmless |
| PmmSpec.ReservesTouchedExactly | src/src/classes/pmm.class.h:92-111 | For every 64-bit address and size: MarkRangeUsed reserves exactly the pages its range touches if and only if its range is harmless |
| PmmSpec.EmptyRangeReserves | src/src/classes/pmm.class.h:92-111 | Concrete failure: the empty range at address 1 reserves page 0 |
| PmmSpec.ReservesTouched | src/src/classes/pmm.class.h:92-111 | Every non-empty range that ends below 2^44 - 4096 is harmless |
| PmmSpec.CastFreesTheWrongPage | src/src/classes/pmm.class.h:68-87 | Concrete failure: 4 KiB of memory at 2^44 frees page 0 |
| PmmSpec.StartWraps | src/src/classes/pmm.class.h:68-87 | Concrete failure: a range at 2^64 - 1 frees page 0 |
| PmmSpec.EndWraps | src/src/classes/pmm.class.h:68-87 | Concrete failure: a range from 4096 to 2^64 frees nothing |
| PmmModule.Pmm.IsUsed | src/src/classes/pmm.class.h:58-61 | The page's bit |
| PmmModule.Pmm.SetUsed | src/src/classes/pmm.class.h:48-51 | The bitmap with one page in use |
| PmmModule.Pmm.SetFree | src/src/classes/pmm.class.h:53-56 | The bitmap with one page free |
| PmmModule.Pmm.MarkRangeFree | src/src/classes/pmm.class.h:68-87 | Clears exactly the inner pages, counts each as free and takes it off the reserved ones as long as there are any, in every state |
| PmmModule.Pmm.MarkRangeUsed | src/src/classes/pmm.class.h:92-111 | Sets exactly the outer pages; the counters still match |
| PmmModule.Pmm.FreeEntries | src/src/classes/pmm.class.h:142-156 | The loop over one memory map adds exactly its entries to those that free pages |
| PmmModule.Pmm.FreeAvailable | src/src/classes/pmm.class.h:135-160 | After the tag walk a page is free exactly when some available entry of some map frees it |
| PmmModule.Pmm.Start | src/src/classes/pmm.class.h:120-172 | Up if and only if there is boot information; exact bitmap after re-reserving kernel, heap and first MiB; exact reserved count; when all available entries are harmless, a page is free exactly when its 4 KiB lie in one AVAILABLE entry and it misses [kernel_start, heap end) and the first MiB; nothing free and nothing held otherwise |
| PmmModule.FreePagesAfterStart | src/src/classes/pmm.class.h:68-172 | The same for one page, whatever the order or overlap of entries |
| PmmModule.KernelFloor | src/src/classes/pmm.class.h:163-167 | Every page below the heap's end is reserved |
| PmmModule.Pmm.AllocPage | src/src/classes/pmm.class.h:179-199 | In every state the byte-skipping scan returns the lowest free page a bit-by-bit scan would; while only held pages have been returned it is one of those free after Start, never one still held, never below the floor, and 0 exactly when none is free; free and held pages together stay the ones free after Start |
| PmmModule.Pmm.FreePage | src/src/classes/pmm.class.h:204-213 | For every address: the exact bitmap and counters, wrap-around included; everything the manager promises survives if and only if the page was handed out or is free already |
| PmmModule.ReturnKernelPage | src/src/classes/pmm.class.h:179-213 | What happens otherwise: a page of kernel, heap or first MiB that is returned is handed out by the next call; for page 0 as address 0 |
| PmmModule.ReturnZeroAfterStart | src/src/classes/pmm.class.h:120-213 | Concrete failure: FreePage(0) right after Start |
| PmmModule.LowestFreeIs | src/src/classes/pmm.class.h:179-199 | The lowest free page is the one with all lower pages in use |
| PmmModule.BitmapSpelledOut | src/src/classes/pmm.class.h:48-61 | In every state page p is in use exactly when bit p % 8 of byte p / 8 is 1, for all 1048576 pages |
| PmmModule.UsableSpelledOut | src/src/classes/pmm.class.h:137-151 | A page is usable exactly when it lies whole in memory of type 1 |
| PmmModule.StartOneMap | src/src/classes/pmm.class.h:120-172 | The manager brought up on a one-entry map given word by word: exactly the whole pages inside memory of type 1, at or past the heap's end, are free |
| MultibootModule.Multiboot.Start | src/src/classes/multiboot.class.h:46-137 | Valid exactly with the right magic and a non-null pointer; every field as the tags say; the total is the 64-bit sum of AVAILABLE lengths over all maps |
| MultibootModule.Multiboot.Learn | src/src/classes/multiboot.class.h:71-118 | The effect of one tag on the fields |
| MultibootModule.TotalIsSum | src/src/classes/multiboot.class.h:88-105 | Accumulating tag by tag equals summing all available entries |
| MultibootModule.LastTagTells | src/src/classes/multiboot.class.h:71-118 | Field by field: after the walk each field is the stated word or byte of the last tag of its type (command line 1, sizes 4, memory map 6, framebuffer 8), whatever came before |
| MultibootModule.Untouched | src/src/classes/multiboot.class.h:71-118 | Tags of other types leave a field as it was |
| MultibootModule.AvailableOne | src/src/classes/multiboot.class.h:88-105 | An entry of type 1 counts with its length, modulo 2^64, any other not at all |
| KernelModule.PreScan | src/src/kernel.cpp:48-65 | The walk over the chain computes the highest module end (`NextTag`, `ModulesEndSpelledOut` and `OddTagScan` say in words what that is) |
| KernelModule.ModulesEndIsMax | src/src/kernel.cpp:48-65 | That number bounds every module end and is one of them, or 0 without modules |
| KernelModule.ModulesEndSpelledOut | src/src/kernel.cpp:57-62 | In words: no tag of type 3 has a larger second body word, and one has it unless the result is 0 |
| KernelModule.OddTagScan | src/src/kernel.cpp:48-65 | An empty command line of size 9 with its padding, then a module, word by word in memory: the walk returns the module's end |
| KernelModule.Kernel.PlaceHeap | src/src/kernel.cpp:48-69 | The heap starts at the page boundary past the kernel and every module, and boot information clear of its first header survives |
| KernelModule.Kernel.Boot | src/src/kernel.cpp:48-80 | Pre-scan, heap, page manager and ramdisk in order, for boot information clear of the first heap header: the bitmap in the terms of the memory map, first module with the SHIR magic chosen, separation invariant established, only that header written |
| KernelModule.Kernel.StartShiro | src/src/kernel.cpp:83-84 | Then the kernel object is allocated and the boot information read: validity, all fields and the total, as long as it lies clear of the whole heap |
| KernelModule.Kernel.BootOverInfo | src/src/kernel.cpp:48-80 | Concrete failure: boot information that begins where the heap does, as directly behind a page-aligned kernel; the first header hides every tag, no page is free and no module is found |
| KernelModule.InfoClobbered | src/src/classes/heap.class.h:75-79 | The header's `used` word, 0, ends the chain at its first tag |
| KernelModule.InfoSurvives | src/src/classes/multiboot.class.h:66-123 | Writes that miss the chain leave it as it was |
| KernelModule.Kernel.AllocPage | src/src/classes/pmm.class.h:179-199 | Every page handed out, at any time, is page-aligned, lies at or above the heap's end, was not held, and lies in one AVAILABLE entry of the memory map when all such entries are harmless |
| KernelModule.Kernel.FreePage | src/src/classes/pmm.class.h:204-213 | Returning a page keeps the separation if and only if it was handed out or is free already |
| KernelModule.Kernel.ReturnHeapPage | src/src/classes/pmm.class.h:179-213 | Concrete failure: the heap's first page, returned, is handed out next while a heap block lies in it |
| KernelModule.Kernel.New | src/src/classes/heap.class.h:108-143 | Allocating keeps the separation and the ramdisk's bytes |
| KernelModule.Kernel.Delete | src/src/classes/heap.class.h:151-191 | Releasing keeps the separation and the ramdisk's bytes |
| KernelModule.Kernel.Write | src/src/kernel.cpp:43-80 | A word-aligned store by the owner of a heap block or a page keeps every heap header and the ramdisk |
| KernelModule.Kernel.NoTwoOwners | src/src/kernel.cpp:43-80 | In every reachable state heap blocks, boot modules and pages handed out are pairwise disjoint |
| KernelModule.DiskSurvives | src/src/kernel.cpp:43-80 | The ramdisk keeps its bytes under any writes above it |
| KernelModule.FirstImageIs | src/src/classes/initrd.class.h:65-99 | A module holding a packed image is the one chosen when no module before it has the magic |
| KernelModule.FirstImageKept | src/src/classes/initrd.class.h:65-99 | Which module is chosen does not depend on memory past all of them |
| SystemModule.System.Boot | src/src/classes/shiro.class.h:166 | Boot followed by the scheduler's start establishes the invariant of the whole kernel |
| SystemModule.System.StartTasks | src/src/classes/scheduler.class.h:74-104 | So does starting the scheduler on a booted kernel |
| SystemModule.System.NoTwoOwners | src/src/kernel.cpp:43-80 | Task stacks join the owners: pairwise disjoint, disjoint from boot modules and from pages handed out, each but task 0's inside a live heap block |
| SystemModule.System.Tick | src/src/classes/timer.class.h:71-78 | A timer interrupt, with or without a switch, keeps heap, pages, modules, ramdisk bytes and every suspended task; a task switched to has the registers, stack pointer and stack it was suspended with |
| SystemModule.System.Yield | src/src/classes/scheduler.class.h:204-214 | So does a yield, with the same guarantee for the task switched to |
| SystemModule.System.Sleep | src/src/classes/scheduler.class.h:221-229 | So does a sleep, with the same guarantee for the task switched to |
| SystemModule.System.Spawn | src/src/classes/scheduler.class.h:132-179 | So does a spawn, or it changes nothing |
| SystemModule.System.New | src/src/classes/heap.class.h:108-143 | So does an allocation by whichever task runs |
| SystemModule.System.Delete | src/src/classes/heap.class.h:151-191 | So does a release of anything but a stack |
| SystemModule.System.AllocPage | src/src/classes/pmm.class.h:179-199 | So does handing out a page, which lies above the heap |
| SystemModule.System.FreePage | src/src/classes/pmm.class.h:204-213 | Returning a page keeps all of it if and only if the page was handed out or is free already |
| SystemModule.System.Write | src/src/classes/scheduler.class.h:204-214 | A word-aligned store by the running task to its stack, a block that is nobody's stack or a page handed out keeps all of it |
| Mkinitrd.Pack | src/tools/mkinitrd.py:48-66 | The array-filling loops produce exactly the image of the file list, or struct.error exactly when a count, size or offset does not fit in 32 bits |
| Mkinitrd.ImageHead | src/tools/mkinitrd.py:56-57 | The image begins with magic and count |
| Mkinitrd.EntryInImage | src/tools/mkinitrd.py:58-63 | Entry i lies at 8 + 40 i, byte for byte |
| Mkinitrd.PayloadInImage | src/tools/mkinitrd.py:65-66 | Payload i lies at its offset, byte for byte |
| Mkinitrd.HeadSpelledOut | src/tools/mkinitrd.py:56-57 | The image begins with the bytes of the marker, 82 73 72 83, and the count, low byte first |
| Mkinitrd.ImageSpelledOut | src/tools/mkinitrd.py:24-66 | Byte by byte: at 8 + 40 i the first 31 bytes of the name filled up with zeros, at + 32 the size, at + 36 the offset, low byte first, and at the offset the payload |
| Mkinitrd.OffsetsSpelledOut | src/tools/mkinitrd.py:48-54 | Payloads follow header and table one after the other |
| InitrdModule.Initrd.Start | src/src/classes/initrd.class.h:51-102 | The first module whose first four bytes are the magic, at whatever address it starts, is chosen, others skipped; not ready and all fields zero exactly when there is none |
| InitrdModule.FirstImageSpelledOut | src/src/classes/initrd.class.h:65-99 | The module chosen begins with the bytes 82 73 72 83 and no module before it does; none is chosen exactly when none does |
| InitrdModule.Initrd.Strncmp | src/src/classes/initrd.class.h:104-114 | Zero exactly when the name field and the C string agree up to the NUL or 32 bytes; otherwise the difference of the first two bytes that differ |
| InitrdModule.Initrd.Find | src/src/classes/initrd.class.h:119-128 | The first entry with that name, null exactly when there is none |
| InitrdModule.Initrd.Data | src/src/classes/initrd.class.h:134-138 | Base plus stored offset, null when not ready or without an entry |
| InitrdModule.WordFromBytes | src/tools/mkinitrd.py:56-63 | A little-endian word is its four bytes, wherever it begins |
| InitrdModule.LoadedIsImage | src/tools/mkinitrd.py:56-69 | Any image has a memory in which it lies at any given aligned address, byte for byte, which is what the reader's lemmas start from |
| InitrdModule.HeaderReadsBack | src/src/classes/initrd.class.h:76-93 | Reading a packed image's header gives the magic and the number of files packed |
| InitrdModule.EntryReadsBack | src/src/classes/initrd.class.h:119-138 | Reading entry i gives the packed name field, the payload's size and its offset |
| InitrdModule.PackedNameIs | src/tools/mkinitrd.py:24-26 | A packed name field matches a name if and only if the name is what the packer kept |
| InitrdModule.NoEarlierNamesake | src/tools/mkinitrd.py:37-40 | In a sorted archive no earlier file is cut to a later file's full name |
| InitrdModule.FoundIsFirstCut | src/src/classes/initrd.class.h:119-128 | Find on a packed archive returns the first file the packer cut to the name looked up |
| InitrdModule.PackedFileIsFound | src/src/classes/initrd.class.h:119-138 | In an archive of sorted names a file is found under its own name, with its own size and bytes, if and only if its name has at most 31 bytes, even when longer names are cut to the same 31; a longer name is not found at all |
| InitrdModule.FindIsExact | src/src/classes/initrd.class.h:116-128 | For every name: the file found has exactly that name and null means no file has it, if and only if no file longer than 31 bytes has that name, and any such file cut to it comes with a file named exactly so |
| InitrdModule.LongerFileFound | src/src/classes/initrd.class.h:116-128 | Concrete failure: in an archive of one file named by 32 letters, 31 of them find it |
| Lines.Cat | src/src/classes/commands.class.h:537-562 | The one-pass loop with its 80-byte buffer prints exactly: drop CR, split at LF, cut each line into pieces of at most 79 (each up to its first NUL) |
| Lines.RunScript | src/src/kernel.cpp:100-122 | The init.sh loop dispatches exactly those pieces that are neither empty nor begin with '#', in order |
| Lines.SplitUnlines | src/src/classes/commands.class.h:537-562 | Splitting loses nothing: joined with LF the lines give the text back, and none contains LF |
| Lines.PiecesExact | src/src/classes/commands.class.h:537-562 | Cutting loses nothing: pieces concatenate to the line, all but the last have 79 bytes, and a line of exactly 79 leaves no blank piece |
| Lines.ByteStep | src/src/classes/commands.class.h:537-556 | One iteration of the loop accounts for its byte in each of the four branches |
| Lines.AtWrap | src/src/classes/commands.class.h:544-556 | A full buffer is a piece of its own exactly when the line goes on |
| Lines.AtNewline | src/src/classes/commands.class.h:544-556 | A newline completes the buffered line, even an empty or a full one |
| Lines.ScriptAsDocumented | src/src/kernel.cpp:90-122 | What is dispatched is exactly the non-empty, non-comment lines if and only if every line fits 79 bytes or is a comment all of whose pieces look like comments, and no line to be run contains a NUL |
| Lines.LongCommentRuns | src/src/kernel.cpp:100-122 | Concrete failure: the 80th byte of a comment runs as a command |
| Lines.NulCutsCommand | src/src/kernel.cpp:100-122 | Concrete failure: of a line with a NUL only what comes before it runs |
| Lines.DropJoin | src/src/classes/commands.class.h:541-542 | Dropping goes byte by byte and keeps the order |
| Lines.DropOne | src/src/classes/commands.class.h:541-542 | Only the byte 13 is dropped |
| Lines.LineOfText | src/src/classes/commands.class.h:543-556 | A line of at most 79 bytes ended by 10, or by 13 and 10, is one piece, whatever follows |
| Lines.LongLineOfText | src/src/classes/commands.class.h:543-556 | 79 bytes are a piece of their own when the line goes on, and the rest is cut as if the line began there |
| Lines.EndOfText | src/src/classes/commands.class.h:558-562 | A last line without 10 is a piece unless it is empty |
| Lines.CommandsSpelledOut | src/src/kernel.cpp:100-122 | A piece is a command unless it is empty or begins with the byte 35 |
| Lines.FourLineScript | src/src/kernel.cpp:100-122 | A script of four lines, byte by byte, and the two commands in it |
| Terminal.Shell.constructor | src/src/classes/shell.class.h:151-191 | Five terminals with empty logs |
| Terminal.Shell.StartTerminal | src/src/classes/shell.class.h:575-588 | One terminal's content becomes blank, the others are untouched |
| Terminal.Shell.ClearTerminal | src/src/classes/shell.class.h:498-511 | A clear empties one terminal's log |
| Terminal.Shell.Switch | src/src/classes/shell.class.h:411-424 | A terminal switch changes no buffer |
| Terminal.Shell.Scroll | src/src/classes/shell.class.h:767-793 | Scrolling appends row 23 to the log the window shows and blanks row 23 |
| Terminal.Shell.WriteCColored | src/src/classes/shell.class.h:641-659 | The character loop leaves the finished segments in the log and the unfinished one in row 23 |
| Terminal.Shell.WriteC | src/src/classes/shell.class.h:597-613 | A write adds exactly its segments to the current terminal's log: rows 2-22 show the last 21 of the log, row 23 is blank, other terminals untouched; and for a text of at most 79 characters without newline the cells themselves: row 22 is the characters, low byte, in the terminal's colour, high byte, blanks beyond, and all rows above it moved up by one |
| Terminal.Shell.WriteCEcho | src/src/classes/shell.class.h:622-634 | The same in the echo colour |
| Terminal.Shell.WriteD | src/src/classes/shell.class.h:668-683 | The same for terminal 5, whatever the current one, which is restored |
| Terminal.WindowSlides | src/src/classes/shell.class.h:767-793 | One row more in the log moves every row of the window up by one |
| Terminal.ShortRow | src/src/classes/shell.class.h:641-659 | A segment of at most 79 characters is shown as it is, padded with blanks |
| Terminal.AnyRow | src/src/classes/shell.class.h:641-659 | A longer one wraps inside its row: column c shows its last character whose index is c modulo 79 |
| Terminal.NewestRow | src/src/classes/shell.class.h:641-659 | One short line more is row 22, byte by byte: character in the low byte, colour in the high byte, 32 beyond the text; every other row moves up by 80 cells |
| Terminal.Shell.NewestCells | src/src/classes/shell.class.h:641-659 | A short line that is the newest of the log is row 22 of the screen's cells |
| Terminal.OneSegment | src/src/classes/shell.class.h:641-659 | A text without newlines is one segment |
| Terminal.SegmentsJoin | src/src/classes/shell.class.h:641-659 | The byte 10 separates the segments before it from those after it |
| CommandsModule.Fetch | src/src/kernel.cpp:95-99 | The bytes of the first file of that name, nothing exactly when there is none |
| CommandsModule.LookUp | src/src/classes/commands.class.h:521-532 | The three outcomes of cat's lookup: no such file, no data, or the file's bytes |
| CommandsModule.BootArchive | src/src/classes/initrd.class.h:51-102 | A boot module that holds a packed image, the first one with the magic, is the archive after boot |
| CommandsModule.FetchPacked | src/src/classes/initrd.class.h:119-138 | End to end in every state after boot: a packed file is fetched under its name with exactly its bytes if and only if the name has at most 31 bytes |
| CommandsModule.PrintAll | src/src/classes/commands.class.h:42-46 | Printing pieces adds one row each, in order |
| CommandsModule.NoNewlines | src/src/classes/commands.class.h:537-562 | What cat prints contains no newline, so each piece is one row |
| CommandsModule.AppendStr | src/src/classes/commands.class.h:133-138 | Appends as much of a C string as leaves room for the NUL |
| CommandsModule.MissingMessage | src/src/classes/commands.class.h:522-529 | The message for a missing file, cut at 79 bytes |
| CommandsModule.Cat | src/src/classes/commands.class.h:508-563 | cat from ramdisk to screen: the file's lines, cut at 79, or the usage, not-loaded, not-found or read-error message become the newest rows of the current terminal |
| CommandsModule.CatPacked | src/src/classes/commands.class.h:508-563 | For a packed file with a name of 1 to 31 bytes those rows are the file's own lines |
| CommandsModule.CatPrintsLongerFile | src/src/classes/commands.class.h:521-562 | Concrete failure: cat of those 31 letters prints that file |
| CommandsModule.BootScript | src/src/kernel.cpp:90-124 | init.sh from ramdisk to dispatch; nothing is dispatched when it is absent |
| CommandsModule.CatUsage | src/src/classes/commands.class.h:510-514 | Without a name the newest row is the bytes of the usage line, blank beyond them |
| CommandsModule.CatNotLoaded | src/src/classes/commands.class.h:515-519 | Without a ramdisk the newest row is the bytes of the not-loaded message |
| CommandsModule.CatMissing | src/src/classes/commands.class.h:521-529 | When no file of the archive has the name, whole or cut to 31 bytes, the newest row is the bytes of the not-found message and the name, cut at 79 |
| CommandsModule.CatReadError | src/src/classes/commands.class.h:531-532 | When the entry's data would lie at address 0 the newest row is the bytes of the read-error message |
| CommandsModule.CatOneLine | src/src/classes/commands.class.h:537-563 | A file of one short line is the newest row, byte by byte |
| CommandsModule.BootPacked | src/src/kernel.cpp:90-124 | An archive that holds a file named by the bytes of init.sh has that file's commands dispatched |

## Left out

- HeapModule.Heap.Free: excludes, as do the callers below, a pointer in front of which some payload forges a magic with a non-zero `used`, because the code would then release a block that does not exist.
- KernelModule.Kernel.Delete: excludes the same forged pointer.
- HeapRuns.FreeEach: takes null and pointers the heap handed out; that a pointer with no magic in front changes nothing is the contract of `Free`.
- HeapRuns.Take: the same.
- HeapRuns.ReleaseThenHistory: the same.
- KernelModule.Kernel.PlaceHeap: excludes boot information that overlaps the first heap header, except for the case of `BootOverInfo`; what the walks read then depends on which words are hit.
- KernelModule.Kernel.Boot: the same.
- SystemModule.System.Boot: the same; the reading of the boot information, which writes only its own object, is `Kernel.StartShiro`.
- CommandsModule.BootArchive: the same.
- KernelModule.Kernel.StartShiro: excludes boot information inside the heap, where the bytes of the kernel object decide what is read; the constructor's stores are those of an owner (`Kernel.Write`).
- SchedulerModule.Scheduler.Yield: a timer interrupt between its statements, EFLAGS and the end-of-interrupt signal are not modelled.
- SchedulerModule.Scheduler.Spawn: does not store the task's name.
- SchedulerModule.Scheduler.Delete: excludes releasing the stack of a task, which would take it from under a suspended task.
- InitrdModule.Initrd.Find: computes entry addresses without wrap-around at 2^32, which a valid image cannot reach.
- SystemModule.System.Delete: excludes the same, and forged pointers.
- Terminal.Shell.WriteC: repainting the screen after a write is not modelled.
- Terminal.Shell.WriteCEcho: the same.
- Terminal.Shell.WriteD: the same.
- Terminal.Shell.Switch: repainting header and screen is not modelled.
- CommandsModule.BootScript: what a dispatched command does is not modelled.
- Heap, scheduler and page manager are objects here, one each; in the kernel they are static members.
- Devices and port I/O, the interrupt controller, keyboard and cursor, logging.
- Descriptor tables, paging, number formatting: single loops or packings with no property across functions.
- Header, status bar and prompt painting, demo tasks, terminals 0 and 6 to 9, which are never started.
- Reading the directory in the packer: the sorted list of names and contents is the input.
