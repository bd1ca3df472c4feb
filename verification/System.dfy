/** The whole kernel: tasks, heap, pages, ramdisk and boot modules over one memory, and what every
    step of it keeps, whichever task takes it and however interrupts fall between steps. */
module SystemModule {
  import opened Words
  import opened Tags
  import opened HeapSpec
  import opened HeapMemory
  import opened HeapModule
  import opened SchedSpec
  import opened Stacks
  import opened SchedulerModule
  import opened KernelModule
  import P = PmmSpec
  import PM = PmmModule
  import I = InitrdModule

  /** The first address past the boot stack and the task table. */
  function LowEnd(k: Layout): int {
    if k.kernelHi >= k.table + TASK_BYTES * MAX_TASKS then k.kernelHi else k.table + TASK_BYTES * MAX_TASKS
  }

  class System {
    const kernel: Kernel
    const sched: Scheduler

    ghost predicate Wired()
    {
      sched.ram == kernel.ram && sched.heap == kernel.heap && sched.tasks as object != kernel.pmm.bitmap
    }

    /** The kernel image, with boot stack and task table, lies below every boot module. */
    ghost predicate ModulesAbove()
      reads kernel
    {
      forall t :: IsModule(kernel.tags, t) ==> LowEnd(sched.layout) <= WordAt(t, 0)
    }

    ghost predicate Valid()
      reads kernel, kernel.ram, kernel.heap, kernel.pmm, kernel.pmm.bitmap, kernel.initrd
      reads sched, sched.tasks, sched.ram, sched.heap
    {
      && Wired() && kernel.Valid() && sched.Valid() && sched.ready && ModulesAbove()
      && (kernel.initrd.ready ==> LowEnd(sched.layout) <= kernel.initrd.base)
    }

    constructor (kernel: Kernel, sched: Scheduler)
      requires sched.ram == kernel.ram && sched.heap == kernel.heap && sched.tasks as object != kernel.pmm.bitmap
      ensures this.kernel == kernel && this.sched == sched && Wired()
    {
      this.kernel, this.sched := kernel, sched;
    }

    /** Boot, then the scheduler with the booting flow as task 0. */
    method Boot(mbi: word, kernelEnd: word, ghost tags: seq<Tag>)
      requires Wired() && kernel.Unbooted() && kernel.BootInfo(mbi, kernelEnd, tags)
      requires sched.Valid() && !sched.ready && !sched.inPreempt && Sound(sched.layout)
      requires sched.layout.heapLo == HeapBase(ModulesEnd(tags), kernelEnd)
      requires sched.layout.heapHi == sched.layout.heapLo + HEAP_SIZE
      requires forall t :: IsModule(tags, t) ==> LowEnd(sched.layout) <= WordAt(t, 0)
      modifies kernel, kernel.ram, kernel.heap, kernel.pmm, kernel.pmm.bitmap, kernel.initrd
      modifies sched, sched.tasks
      ensures Valid() && kernel.tags == tags
      ensures sched.Abs() == Booted(MAX_TASKS).(ticks := old(sched.ticks))
    {
      hide Good, IsModule, PM.Pmm.Valid, PM.AllHarmless, PM.Usable, Peek, I.ImageAt, I.BytesAt, WordAt, Resumable;
      hide Owned, OnePreempted, Sound, SameOutside;
      hide ChainAt, ChainEnd, HeapBase, RegionFits, ModulesEnd, AllEntries, PM.SomeFrees, I.FirstImage;
      kernel.Boot(mbi, kernelEnd, tags);
      if kernel.initrd.ready { FirstImageIsModule(kernel.ram.m, tags); }
      StartTasks();
    }

    /** The scheduler on a kernel that has been booted. */
    method StartTasks()
      requires Wired() && kernel.Valid() && ModulesAbove()
      requires kernel.initrd.ready ==> LowEnd(sched.layout) <= kernel.initrd.base
      requires !sched.ready && !sched.inPreempt && Sound(sched.layout)
      requires sched.cpu.ram == sched.ram && sched.tasks.Length == MAX_TASKS
      requires sched.layout.heapLo == kernel.heap.base && sched.layout.heapHi == kernel.heap.end
      modifies sched, sched.tasks, sched.ram
      ensures Valid()
      ensures sched.Abs() == Booted(MAX_TASKS).(ticks := old(sched.ticks))
    {
      hide Good, IsModule, PM.Pmm.Valid, PM.AllHarmless, PM.Usable, Peek, I.ImageAt, WordAt, Resumable, Owned;
      hide OnePreempted, Sound, SameOutside;
      ghost var m0 := kernel.ram.m;
      sched.Start();
      if kernel.initrd.ready { TableSparesDisk(m0, kernel.ram.m, sched.layout, kernel.initrd.base, kernel.disk); }
    }

    /** The stacks join the owners: no two share a byte, and none has a byte of a boot module or of a
        page that has been handed out; all but task 0's are the payloads of live heap blocks. */
    lemma NoTwoOwners()
      requires Valid()
      ensures Shape(sched.Abs())
      ensures var s, k, n := sched.Abs(), sched.layout, sched.Abs().spawned;
              && (forall i, j :: 0 <= i < n && 0 <= j < n && i != j ==>
                    Hi(s, k, i) <= Lo(s, k, j) || Hi(s, k, j) <= Lo(s, k, i))
              && (forall i :: 1 <= i < n ==> StackBlock(kernel.heap.blocks, Lo(s, k, i)))
              && (forall i, t :: 0 <= i < n && IsModule(kernel.tags, t) ==>
                    Hi(s, k, i) <= WordAt(t, 0) || ModuleEnd(t) <= Lo(s, k, i))
              && (forall i, p :: 0 <= i < n && p in kernel.pmm.held ==> Hi(s, k, i) <= p * P.PAGE)
    {
      hide Good, IsModule, PM.Pmm.Mirrored, PM.Pmm.Counted, PM.AllHarmless, PM.Usable, Peek, I.ImageAt, WordAt;
      hide StackBlock, Waiting, OnePreempted;
    }

    // -------------------------------------------------------------------------------------------
    // The steps

    /** The timer interrupt. Here as in the next two steps, a task that is switched to finds its
        registers, stack pointer and stack as it left them. */
    method Tick()
      requires Valid() && sched.Roomy()
      modifies sched, sched.tasks, sched.cpu, sched.ram
      ensures Valid() && sched.Abs() == Ticked(old(sched.Abs()), old(sched.cpu.ContextAt(IN_PREEMPT)))
      ensures sched.current == old(sched.current) ==> unchanged(sched.cpu) && unchanged(kernel.ram)
      ensures sched.current != old(sched.current) ==>
                && sched.Resumed(old(sched.saved), old(sched.image))
                && sched.image == old(sched.image)[old(sched.current) := kernel.ram.m]
    {
      hide Good, IsModule, PM.Pmm.Valid, PM.AllHarmless, PM.Usable, Peek, I.ImageAt, WordAt, Resumable, Owned;
      hide OnePreempted, Sound, SameBut;
      hide Lo, Hi, Ticked, LowEnd, Scheduler.Resumed;
      ghost var s, m0, image, e := sched.Abs(), kernel.ram.m, sched.image, sched.cpu.esp;
      sched.TimerInterrupt();
      if kernel.initrd.ready {
        SwitchSparesDisk(s, m0, kernel.ram.m, image, sched.layout, e, kernel.initrd.base, kernel.disk);
      }
    }

    /** `Yield` by the running task. */
    method Yield()
      requires Valid() && sched.Roomy()
      modifies sched, sched.tasks, sched.cpu, sched.ram
      ensures Valid() && sched.Abs() == Yielded(old(sched.Abs()), old(sched.cpu.ContextAt(IN_YIELD)))
      ensures sched.current == old(sched.current) ==> unchanged(sched.cpu) && unchanged(kernel.ram)
      ensures sched.current != old(sched.current) ==>
                && sched.Resumed(old(sched.saved), old(sched.image))
                && sched.image == old(sched.image)[old(sched.current) := kernel.ram.m]
    {
      hide Good, IsModule, PM.Pmm.Valid, PM.AllHarmless, PM.Usable, Peek, I.ImageAt, WordAt, Resumable, Owned;
      hide OnePreempted, Sound, SameBut;
      hide Lo, Hi, Yielded, LowEnd, Scheduler.Resumed;
      ghost var s, m0, image, e := sched.Abs(), kernel.ram.m, sched.image, sched.cpu.esp;
      sched.Yield(IN_YIELD);
      if kernel.initrd.ready {
        SwitchSparesDisk(s, m0, kernel.ram.m, image, sched.layout, e, kernel.initrd.base, kernel.disk);
      }
    }

    /** `Sleep` by the running task. */
    method Sleep(ms: word)
      requires Valid() && sched.Roomy()
      modifies sched, sched.tasks, sched.cpu, sched.ram
      ensures Valid() && sched.Abs() == Slept(old(sched.Abs()), ms, old(sched.cpu.ContextAt(IN_YIELD)))
      ensures sched.current == old(sched.current) ==> unchanged(sched.cpu) && unchanged(kernel.ram)
      ensures sched.current != old(sched.current) ==>
                && sched.Resumed(old(sched.saved), old(sched.image))
                && sched.image == old(sched.image)[old(sched.current) := kernel.ram.m]
    {
      hide Good, IsModule, PM.Pmm.Valid, PM.AllHarmless, PM.Usable, Peek, I.ImageAt, WordAt, Resumable, Owned;
      hide OnePreempted, Sound, SameBut;
      hide Lo, Hi, Slept, LowEnd, Scheduler.Resumed;
      ghost var s, m0, image, e := sched.Abs(), kernel.ram.m, sched.image, sched.cpu.esp;
      sched.Sleep(ms);
      if kernel.initrd.ready {
        SwitchSparesDisk(s, m0, kernel.ram.m, image, sched.layout, e, kernel.initrd.base, kernel.disk);
      }
    }

    /** `Spawn` by the running task. */
    method Spawn(entry: word) returns (slot: int)
      requires Valid() && entry != IN_YIELD && entry != IN_PREEMPT
      modifies sched, sched.tasks, sched.ram, sched.heap
      ensures Valid()
      ensures slot != -1 ==>
                && slot == old(sched.spawnedCount) < MAX_TASKS == sched.tasks.Length
                && sched.SpawnedOn(old(sched.Abs()), entry, sched.tasks[slot].stackBase)
      ensures slot == -1 ==> sched.Abs() == old(sched.Abs()) && kernel.heap.blocks == old(kernel.heap.blocks)
    {
      hide Good, IsModule, PM.Pmm.Valid, PM.AllHarmless, PM.Usable, Peek, I.ImageAt, WordAt, Resumable, Owned;
      hide OnePreempted, Sound, SameBut, Shape, Placed, Spawned;
      ghost var m0 := kernel.ram.m;
      SpawnSlot(sched.Abs(), m0, sched.image, sched.layout);
      slot := sched.Spawn(entry);
      if kernel.initrd.ready {
        if slot == -1 {
          assert kernel.ram.m == m0;
        } else {
          SpawnSparesDisk(m0, kernel.ram.m, sched.layout, slot, kernel.initrd.base, kernel.disk);
        }
      }
    }

    /** `operator new` by the running task. */
    method New(size: word) returns (p: word)
      requires Valid()
      modifies kernel.heap, kernel.ram
      ensures Valid()
      ensures p != 0 ==> exists k :: Placed(old(kernel.heap.blocks), kernel.heap.blocks, Round(size), p, k)
      ensures p == 0 ==> kernel.heap.blocks == old(kernel.heap.blocks)
    {
      hide Good, IsModule, PM.Pmm.Valid, PM.AllHarmless, PM.Usable, Peek, I.ImageAt, WordAt, Resumable, Owned;
      hide OnePreempted, Placed, SameOutside;
      ghost var m0 := kernel.ram.m;
      p := sched.New(size);
      if kernel.initrd.ready {
        DiskSurvives(m0, kernel.ram.m, kernel.heap.base, kernel.heap.end, kernel.initrd.base, kernel.disk);
      }
    }

    /** `operator delete` by the running task, of anything that is not a task's stack. */
    method Delete(p: word)
      requires Valid() && (p == 0 || FreeArgument(kernel.ram.m, kernel.heap.blocks, Wrap(p - HEADER)))
      requires 0 <= sched.spawnedCount <= MAX_TASKS && forall i :: 1 <= i < sched.spawnedCount ==>
               p != sched.tasks[i].stackBase
      modifies kernel.heap, kernel.ram
      ensures Valid()
      ensures p != 0 ==> kernel.heap.blocks == FreeOne(old(kernel.heap.blocks), Wrap(p - HEADER))
    {
      hide Good, IsModule, PM.Pmm.Valid, PM.AllHarmless, PM.Usable, Peek, I.ImageAt, WordAt, Resumable, Owned;
      hide OnePreempted, SameOutside, FreeOne, FreeArgument;
      ghost var m0 := kernel.ram.m;
      sched.Delete(p);
      if kernel.initrd.ready {
        DiskSurvives(m0, kernel.ram.m, kernel.heap.base, kernel.heap.end, kernel.initrd.base, kernel.disk);
      }
    }

    /** A page for the running task. */
    method AllocPage() returns (address: word)
      requires Valid()
      modifies kernel.pmm, kernel.pmm.bitmap
      ensures Valid()
      ensures address != 0 ==> kernel.heap.end <= address && address / P.PAGE !in old(kernel.pmm.held)
      ensures address != 0 ==> kernel.pmm.held == old(kernel.pmm.held) + {address / P.PAGE}
    {
      hide Kernel.Valid, Good, Resumable, Owned, OnePreempted, WordAt, IsModule;
      address := kernel.AllocPage();
    }

    /** A page back from the running task. */
    method FreePage(address: word)
      requires Valid()
      modifies kernel.pmm, kernel.pmm.bitmap
      ensures kernel.pmm.ready == old(kernel.pmm.ready)
      ensures kernel.pmm.ready ==> |old(kernel.pmm.used)| == P.MAX_PAGES
      ensures Valid() <==> || !kernel.pmm.ready || !old(kernel.pmm.used)[address / P.PAGE]
                           || address / P.PAGE in old(kernel.pmm.held)
    {
      hide Kernel.Valid, Good, Resumable, Owned, OnePreempted, WordAt, IsModule;
      kernel.FreePage(address);
    }

    /** A store by the running task: to its own stack, to a heap block that is nobody's stack, or to
        a page that has been handed out. */
    method Write(a: int, v: word)
      requires Valid() && 0 <= sched.current < MAX_TASKS && 0 <= sched.spawnedCount <= MAX_TASKS && Aligned(a)
      requires sched.MayWrite(a) || exists p :: p in kernel.pmm.held && p * P.PAGE <= a < (p + 1) * P.PAGE
      modifies kernel.ram
      ensures Valid() && Put(old(kernel.ram.m), kernel.ram.m, a, v)
    {
      hide Good, IsModule, PM.Pmm.Mirrored, PM.Pmm.Counted, PM.AllHarmless, PM.Usable, Peek, I.ImageAt, WordAt;
      hide Resumable, Owned, OnePreempted;
      hide Aligned, Sound, Lo, Hi, LowEnd;
      ghost var s, m0, h := sched.Abs(), kernel.ram.m, kernel.heap.Abs();
      ghost var mine := sched.MayWrite(a);
      kernel.ram.Store(a, v);
      if mine {
        WorkIsHarmless(s, h, m0, kernel.ram.m, sched.image, sched.layout, a, v);
      } else {
        WriteKeepsHeap(kernel.heap.Abs(), m0, kernel.ram.m, a, v);
        FarWritesKeepStacks(sched.Abs(), m0, kernel.ram.m, sched.image, sched.layout);
      }
      if kernel.initrd.ready {
        WriteSparesDisk(s, h, m0, kernel.ram.m, sched.image, sched.layout, a, v, kernel.initrd.base, kernel.disk);
      }
    }
  }

  /** The disk lies between the kernel image and the heap. */
  ghost predicate Between(k: Layout, base: int, disk: seq<byte>) {
    LowEnd(k) <= base && base + |disk| <= k.heapLo
  }

  lemma SwitchSparesDisk(s: Sched, m: Mem, n: Mem, image: map<int, Mem>, k: Layout, e: int, base: int, disk: seq<byte>)
    requires Resumable(s, m, image, k) && Between(k, base, disk) && I.ImageAt(m, base, disk)
    requires Lo(s, k, s.current) + 28 <= e <= Hi(s, k, s.current) && Aligned(e)
    requires SameBut(m, n, e - 28, e, Cell(k, s.current))
    ensures I.ImageAt(n, base, disk) && (|disk| >= 8 ==> Peek(n, base + 4) == Peek(m, base + 4))
  {
    CellInTable(k, s.current);
    SparesWords(e, base);
    TableEnd(k);
    SparesWords(k.table + TASK_BYTES * MAX_TASKS, base);
    hide Aligned, Waiting;
    DiskStays(m, n, base, disk);
  }

  lemma TableSparesDisk(m: Mem, n: Mem, k: Layout, base: int, disk: seq<byte>)
    requires Between(k, base, disk) && I.ImageAt(m, base, disk)
    requires SameOutside(m, n, k.table, k.table + TASK_BYTES * MAX_TASKS) && Sound(k)
    ensures I.ImageAt(n, base, disk) && (|disk| >= 8 ==> Peek(n, base + 4) == Peek(m, base + 4))
  {
    TableEnd(k);
    SparesWords(k.table + TASK_BYTES * MAX_TASKS, base);
    hide Aligned;
    DiskStays(m, n, base, disk);
  }

  lemma TableEnd(k: Layout)
    requires Aligned(k.table)
    ensures Aligned(k.table + TASK_BYTES * MAX_TASKS)
  {
  }

  /** Words before a boundary end before it. */
  lemma SparesWords(end: int, base: int)
    requires Aligned(end)
    ensures end <= base ==> forall x :: Aligned(x) && x < end ==> x + 4 <= base
  {
    forall x | Aligned(x) && x < end
      ensures x + 4 <= end
    {
      NextWord(x, end);
    }
  }

  lemma SpawnSparesDisk(m: Mem, n: Mem, k: Layout, slot: int, base: int, disk: seq<byte>)
    requires Sound(k) && 0 <= slot < MAX_TASKS && Between(k, base, disk) && I.ImageAt(m, base, disk)
    requires SameBut(m, n, k.heapLo, k.heapHi, Cell(k, slot))
    ensures I.ImageAt(n, base, disk) && (|disk| >= 8 ==> Peek(n, base + 4) == Peek(m, base + 4))
  {
    CellInTable(k, slot);
    DiskStays(m, n, base, disk);
  }

  lemma WriteSparesDisk(s: Sched, h: HeapState, m: Mem, n: Mem, image: map<int, Mem>, k: Layout, a: int, v: word,
                        base: int, disk: seq<byte>)
    requires Resumable(s, m, image, k) && Between(k, base, disk) && I.ImageAt(m, base, disk)
    requires Good(h, m) && h.ready && h.base == k.heapLo && h.end == k.heapHi && Put(m, n, a, v)
    requires || Lo(s, k, s.current) <= a <= Hi(s, k, s.current) - 4
             || (exists b :: b in Live(h.blocks) && b.Payload() <= a < b.End())
             || h.end <= a
    ensures I.ImageAt(n, base, disk) && (|disk| >= 8 ==> Peek(n, base + 4) == Peek(m, base + 4))
  {
    hide Chain, Coalesced, Grained, SumUsed, SumFree, CountUsed;
    TiledIsOrdered(h.blocks, h.base, h.end);
    DiskStays(m, n, base, disk);
  }

  /** The words of a disk, the first of which may begin before it, are untouched. */
  lemma DiskStays(m: Mem, n: Mem, base: int, disk: seq<byte>)
    requires I.ImageAt(m, base, disk)
    requires forall x {:trigger Load(n, x)} ::
               Aligned(x) && base < x + 4 && x < base + |disk| ==> Load(n, x) == Load(m, x)
    ensures I.ImageAt(n, base, disk)
    ensures |disk| >= 8 ==> Peek(n, base + 4) == Peek(m, base + 4)
  {
    hide Peek, ByteAt;
    forall i | 0 <= i < |disk|
      ensures ByteAt(n, base + i) == disk[i]
    {
      WordOf(base + i);
      SameByte(m, n, base + i);
    }
    if |disk| >= 8 { SameHeader(m, n, base, disk); }
  }

  lemma WordOf(a: int)
    ensures Aligned(a - a % 4) && a - 4 < a - a % 4 <= a
  {
  }
}
