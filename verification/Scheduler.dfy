/** The scheduler itself: task table, timer and preemption flag as fields, stacks in memory. */
module SchedulerModule {
  import opened Words
  import opened SchedSpec
  import opened CpuModule
  import opened Stacks
  import opened HeapSpec
  import opened HeapMemory
  import opened HeapModule

  class Scheduler {
    const ram: Ram
    const heap: Heap
    const cpu: Cpu
    const tasks: array<Task>
    const layout: Layout
    var current: int
    var spawnedCount: word
    var ready: bool
    var inPreempt: bool
    /** The timer: its tick counter, and whether `Start` has registered the preemption callback. */
    var ticks: word
    var callback: bool

    /** The context of every suspended task, and memory as it was when it was suspended. */
    ghost var saved: map<int, Context>
    ghost var image: map<int, Mem>

    ghost function Abs(): Sched
      reads this, tasks
    {
      Sched(tasks[..], current, spawnedCount, ticks, inPreempt, saved)
    }

    ghost predicate Wired()
      reads this
    {
      cpu.ram == ram && heap.ram == ram && tasks.Length == MAX_TASKS
    }

    /** Every suspended task is resumable, on a stack the heap has given it. */
    ghost predicate Running()
      reads this, tasks, ram, heap
    {
      && Wired() && heap.Valid()
      && (ready ==>
            && callback && heap.ready && heap.base == layout.heapLo && heap.end == layout.heapHi
            && Resumable(Abs(), ram.m, image, layout) && Owned(Abs(), heap.blocks))
    }

    ghost predicate Valid()
      reads this, tasks, ram, heap
    {
      Running() && (ready ==> OnePreempted(Abs()))
    }

    constructor (ram: Ram, heap: Heap, cpu: Cpu, layout: Layout)
      requires heap.Valid() && heap.ram == ram && cpu.ram == ram
      ensures Valid() && !ready && !inPreempt && ticks == 0
      ensures this.ram == ram && this.heap == heap && this.cpu == cpu && this.layout == layout
      ensures fresh(tasks)
    {
      this.ram, this.heap, this.cpu, this.layout := ram, heap, cpu, layout;
      tasks := new Task[MAX_TASKS](_ => Task(Unused, 0, 0, 0, 0, 0));
      current, spawnedCount, ready, inPreempt, ticks, callback := 0, 0, false, false, 0, false;
      saved, image := map[], map[];
    }

    /** All slots cleared; the caller becomes task 0 on the boot stack. */
    method Start()
      requires Valid() && !ready && !inPreempt && heap.ready
      requires Sound(layout) && heap.base == layout.heapLo && heap.end == layout.heapHi
      modifies this, tasks, ram
      ensures Valid() && ready
      ensures Abs() == Booted(MAX_TASKS).(ticks := old(ticks))
      ensures SameOutside(old(ram.m), ram.m, layout.table, layout.table + TASK_BYTES * MAX_TASKS)
    {
      hide Good, Sound, Resumable, Owned, OnePreempted;
      var i := 0;
      while i < MAX_TASKS
        invariant 0 <= i <= MAX_TASKS
        invariant forall j :: 0 <= j < i ==> tasks[j] == Task(Unused, 0, U32 - 1, 0, 0, 0)
        invariant SameOutside(old(ram.m), ram.m, layout.table, layout.table + TASK_BYTES * MAX_TASKS)
        modifies tasks, ram
      {
        tasks[i] := Task(Unused, 0, U32 - 1, 0, 0, 0);
        CellInTable(layout, i);
        ram.Store(Cell(layout, i), 0);
        i := i + 1;
      }
      tasks[0] := tasks[0].(state := Ready, id := 0);
      current := 0;
      spawnedCount := 1;
      ready := true;
      callback := true;
      saved, image := map[], map[];
      assert tasks[..] == Booted(MAX_TASKS).tasks;
      BootFacts(heap.Abs(), old(ram.m), ram.m, layout, ticks);
    }

    /** The first runnable slot after the running one, waking it if its sleep is over; the running
        one when there is none. */
    method PickNext() returns (next: int)
      requires Wired() && 0 <= current < MAX_TASKS
      modifies tasks
      ensures next == Next(old(Abs())) && tasks[..] == Woken(old(Abs()))
    {
      hide Next, Woken, Found;
      ghost var s := Abs();
      var now := ticks;
      var step := 1;
      while step <= MAX_TASKS
        invariant 1 <= step <= MAX_TASKS + 1
        invariant tasks[..] == s.tasks
        invariant FirstRunnable(s.tasks, current, now, 1) == FirstRunnable(s.tasks, current, now, step)
      {
        SlotIsRemainder(current, step, MAX_TASKS);
        var idx := (current + step) % MAX_TASKS;
        assert tasks[idx] == s.tasks[idx];
        if tasks[idx].state == Sleeping && now >= tasks[idx].sleepUntil {
          tasks[idx] := tasks[idx].(state := Ready);
        }
        if tasks[idx].state == Ready {
          WokenIs(s, step, idx);
          assert tasks[..] == s.tasks[idx := tasks[idx]];
          return idx;
        }
        step := step + 1;
      }
      NothingFound(s);
      return current;
    }

    /** The machine runs the current task where and as it was suspended: its registers and stack
        pointer are the saved ones, and its stack above them is untouched. */
    ghost predicate Resumed(was: map<int, Context>, before: map<int, Mem>)
      reads this, tasks, cpu, ram
    {
      && 0 <= current < tasks.Length
      && current in was && cpu.ContextAt(cpu.eip) == was[current] && Aligned(cpu.esp)
      && current in before && SameOn(before[current], ram.m, cpu.esp, Hi(Abs(), layout, current))
    }

    /** There is room on the running task's stack for the call and the frame it saves. */
    ghost predicate Roomy()
      reads this, tasks, cpu
      requires Wired() && 0 <= current < MAX_TASKS
    {
      Lo(Abs(), layout, current) + 28 <= cpu.esp <= Hi(Abs(), layout, current) && Aligned(cpu.esp)
    }

    /** Gives the processor to the next runnable task. `site` is the return address of the call to
        `switch_task`. On a switch the machine resumes the chosen task: its registers and stack
        pointer are those it was suspended with, and so is its whole stack above them. */
    method Yield(site: word)
      requires Running() && (site == IN_YIELD || site == IN_PREEMPT)
      requires ready ==> Roomy()
      modifies this, tasks, cpu, ram
      ensures Running() && ready == old(ready)
      ensures old(Valid()) && site == IN_YIELD ==> Valid()
      ensures !ready ==> unchanged(this) && unchanged(tasks) && unchanged(cpu) && unchanged(ram)
      ensures ready ==> Abs() == Yielded(old(Abs()), old(cpu.ContextAt(site)))
      ensures ready && current == old(current) ==> unchanged(cpu) && unchanged(ram) && image == old(image)
      ensures ready && current != old(current) ==>
                Resumed(old(saved), old(image)) && image == old(image)[old(current) := ram.m]
      ensures ready ==> SameBut(old(ram.m), ram.m, old(cpu.esp) - 28, old(cpu.esp), Cell(layout, old(current)))
    {
      hide Good, Resumable, OnePreempted, Owned, Lo, Hi, Next, Shape, Cell, FrameAt, SwitchedOut;
      hide Woken, Yielded, Resumed, Sound, Apart, SameBut, Found;
      if !ready { return; }
      ghost var s, ctx, image0, m0 := Abs(), cpu.ContextAt(site), image, ram.m;
      YieldFacts(s, ctx, ram.m, image, layout, heap.blocks);
      var next := PickNext();
      if next == current {
        assert Abs() == Yielded(s, ctx);
        ResumableByStacks(s, Abs(), ram.m, image, layout);
        assert SameBut(m0, m0, ctx.esp - 28, ctx.esp, Cell(layout, s.current)) by { NoChange(m0); }
        return;
      }
      SwitchTo(next, site, s, ctx);
      StackWritesKeepHeap(s, heap.Abs(), m0, ram.m, image0, layout, ctx.esp);
    }

    /** The rest of `Yield` once a task other than the running one is chosen. */
    method SwitchTo(next: int, site: word, ghost s: Sched, ghost ctx: Context)
      requires Wired() && (site == IN_YIELD || site == IN_PREEMPT)
      requires Resumable(s, ram.m, image, layout) && next == Next(s) != s.current && ctx == cpu.ContextAt(site)
      requires Abs() == s.(tasks := Woken(s))
      requires Lo(s, layout, s.current) + 28 <= cpu.esp <= Hi(s, layout, s.current) && Aligned(cpu.esp)
      modifies `current, `inPreempt, `saved, `image, tasks, cpu, ram
      ensures Abs() == Yielded(s, ctx) && current == next
      ensures Resumable(Abs(), ram.m, image, layout)
      ensures Resumed(s.saved, old(image)) && image == old(image)[s.current := ram.m]
      ensures SameBut(old(ram.m), ram.m, ctx.esp - 28, ctx.esp, Cell(layout, s.current))
    {
      hide Resumable, Apart, Waiting, Lo, Hi, Next, Shape, Cell, Sound, FrameAt, SwitchedOut, Woken, Yielded, SameBut;
      hide Found;
      ghost var m0 := ram.m;
      YieldIs(s, ctx, m0, image, layout);
      var prev := current;
      current := next;
      tasks[prev] := tasks[prev].(yieldCount := Wrap(tasks[prev].yieldCount + 1));
      Switch(prev, next, site, s);
      SwitchOutcome(s, m0, ram.m, image, layout, ctx);
      saved := saved[prev := ctx] - {next};
      image := image[prev := ram.m];
    }

    /** Puts the running task to sleep for about ms milliseconds and yields. */
    method Sleep(ms: word)
      requires Valid()
      requires ready ==> Roomy()
      modifies this, tasks, cpu, ram
      ensures Valid() && ready == old(ready)
      ensures !ready ==> unchanged(this) && unchanged(tasks) && unchanged(cpu) && unchanged(ram)
      ensures ready ==> Abs() == Slept(old(Abs()), ms, old(cpu.ContextAt(IN_YIELD)))
      ensures ready && current == old(current) ==> unchanged(cpu) && unchanged(ram) && image == old(image)
      ensures ready && current != old(current) ==>
                Resumed(old(saved), old(image)) && image == old(image)[old(current) := ram.m]
      ensures ready ==> SameBut(old(ram.m), ram.m, old(cpu.esp) - 28, old(cpu.esp), Cell(layout, old(current)))
    {
      hide Good, Resumable, Owned, FallenAsleep, Yielded, Resumed, Woken, Next, OnePreempted, Shape, SameBut;
      if !ready { return; }
      ghost var s := Abs();
      SleepFacts(s, ms, ram.m, image, layout, heap.blocks);
      var n := (ms as int * TICK_HZ) % U32 / 1000;
      if n == 0 { n := 1; }
      tasks[current] := tasks[current].(sleepUntil := Wrap(ticks + n));
      tasks[current] := tasks[current].(state := Sleeping);
      assert Abs() == FallenAsleep(s, ms);
      Yield(IN_YIELD);
    }

    /** The timer's callback: a yield, unless one is already under way in a suspended task. */
    method PreemptiveYield()
      requires Valid()
      requires ready ==> Roomy()
      modifies this, tasks, cpu, ram
      ensures Valid() && ready == old(ready)
      ensures !ready ==> unchanged(this) && unchanged(tasks) && unchanged(cpu) && unchanged(ram)
      ensures ready ==> Abs() == Preempted(old(Abs()), old(cpu.ContextAt(IN_PREEMPT)))
      ensures ready && current == old(current) ==> unchanged(cpu) && unchanged(ram) && image == old(image)
      ensures ready && current != old(current) ==>
                Resumed(old(saved), old(image)) && image == old(image)[old(current) := ram.m]
      ensures ready ==> SameBut(old(ram.m), ram.m, old(cpu.esp) - 28, old(cpu.esp), Cell(layout, old(current)))
    {
      hide Good, Resumable, Owned, Yielded, Resumed, Shape, Next, OnePreempted, SameBut;
      if !ready { return; }
      NoChange(ram.m);
      if inPreempt { return; }
      var was := current;
      ghost var s := Abs();
      PreemptFacts(s, cpu.ContextAt(IN_PREEMPT), ram.m, image, layout, heap.blocks);
      inPreempt := true;
      assert Abs() == s.(inPreempt := true);
      Yield(IN_PREEMPT);
      // Only a caller that was not switched out gets here now; one that was clears the flag when
      // it is resumed, in Switch.
      FlagIsNotPlacement(Abs(), ram.m, image, layout, heap.blocks);
      if current == was { inPreempt := false; }
    }

    /** The timer interrupt: the clock advances, and every fifth tick may preempt. */
    method TimerInterrupt()
      requires Valid()
      requires ready ==> Roomy()
      modifies this, tasks, cpu, ram
      ensures Valid() && ready == old(ready)
      ensures ready ==> Abs() == Ticked(old(Abs()), old(cpu.ContextAt(IN_PREEMPT)))
      ensures !ready ==> ticks == Wrap(old(ticks) + 1)
      ensures ready && current == old(current) ==> unchanged(cpu) && unchanged(ram) && image == old(image)
      ensures ready && current != old(current) ==>
                Resumed(old(saved), old(image)) && image == old(image)[old(current) := ram.m]
      ensures ready ==> SameBut(old(ram.m), ram.m, old(cpu.esp) - 28, old(cpu.esp), Cell(layout, old(current)))
    {
      hide Good, Resumable, Owned, Preempted, Resumed, OnePreempted, Shape, Next, SameBut;
      ghost var s := Abs();
      if ready { TickFacts(s, ram.m, image, layout, heap.blocks); }
      NoChange(ram.m);
      ticks := Wrap(ticks + 1);
      assert ready ==> Abs() == s.(ticks := Wrap(s.ticks + 1));
      if callback && ticks % PREEMPT_EVERY == 0 {
        PreemptiveYield();
      }
    }

    /** A new task that begins at entry on a 4 KiB stack of its own; -1 when the table is full or
        the heap has no room, and then nothing has changed. */
    method Spawn(entry: word) returns (slot: int)
      requires Valid() && entry != IN_YIELD && entry != IN_PREEMPT
      modifies this, tasks, ram, heap
      ensures Valid() && ready == old(ready)
      ensures slot == -1 ==> Abs() == old(Abs()) && heap.Abs() == old(heap.Abs()) && ram.m == old(ram.m)
      ensures slot == -1 <==> !ready || spawnedCount == old(spawnedCount)
      ensures ready ==>
                (slot == -1 <==>
                  (old(spawnedCount) == MAX_TASKS ||
                   forall i :: 0 <= i < |old(heap.blocks)| ==> !Fits(old(heap.blocks)[i], STACK_SIZE)))
      ensures slot != -1 ==>
                && slot == old(spawnedCount) < MAX_TASKS
                && SpawnedOn(old(Abs()), entry, tasks[slot].stackBase)
      ensures slot != -1 ==> image == old(image)[slot := ram.m] && unchanged(cpu)
      ensures slot != -1 ==> SameBut(old(ram.m), ram.m, layout.heapLo, layout.heapHi, Cell(layout, slot))
      ensures slot != -1 ==> exists k :: Placed(old(heap.blocks), heap.blocks, STACK_SIZE, tasks[slot].stackBase, k)
    {
      hide Good, Resumable, Owned, OnePreempted, Shape, PayloadsKept, SameOutside, Carve, SameBut, Spawned, Placed;
      hide Fits;
      if !ready { return -1; }
      ghost var s, h0, m0 := Abs(), heap.Abs(), ram.m;
      SpawnSlot(s, m0, image, layout);

      slot := -1;
      var i := 0;
      while i < MAX_TASKS
        invariant 0 <= i <= s.spawned && slot == -1
        modifies {}
      {
        assert tasks[i] == s.tasks[i];
        if tasks[i].state == Unused { slot := i; break; }
        i := i + 1;
      }
      if slot < 0 { return; }
      RoundStack();
      var stack := heap.Alloc(STACK_SIZE);
      if stack == 0 { return -1; }

      ghost var h1, m1 := heap.Abs(), ram.m;
      ghost var k :| Placed(h0.blocks, h1.blocks, STACK_SIZE, stack, k);
      NewStack(s, m0, m1, image, layout, h0, h1, stack, k);
      FormatStack(stack, slot, entry);
      FormattedStack(s, h1, m1, ram.m, image, layout, entry, stack);
      tasks[slot] := Task(Ready, 0, spawnedCount, 0, stack, stack + STACK_SIZE);
      spawnedCount := spawnedCount + 1;
      saved := saved[slot := Context(entry, 0, 0, 0, 0, stack + STACK_SIZE)];
      image := image[slot := ram.m];
      assert Abs() == Spawned(s, entry, stack);
      SpawnFootprint(m0, m1, ram.m, layout, stack, Cell(layout, slot));
    }

    ghost predicate SpawnedOn(s: Sched, entry: word, stack: word)
      reads this, tasks
    {
      Shape(s) && stack != 0 && stack + STACK_SIZE < U32 && Abs() == Spawned(s, entry, stack)
    }

    /** The frame the first `switch_task` into the task will pop. */
    method FormatStack(stack: word, slot: int, entry: word)
      requires stack + STACK_SIZE < U32 && Aligned(stack) && Sound(layout) && layout.heapLo <= stack
               && 0 <= slot < MAX_TASKS
      modifies ram
      ensures Load(ram.m, Cell(layout, slot)) == stack + STACK_SIZE - 20
      ensures FrameWords(ram.m, stack + STACK_SIZE - 20, entry)
      ensures SameBut(old(ram.m), ram.m, stack, stack + STACK_SIZE, Cell(layout, slot))
    {
      CellBelowHeap(layout, slot);
      hide Sound, Cell;
      var sp: word := stack + STACK_SIZE;
      sp := sp - 4;
      ram.Store(sp, entry);
      sp := sp - 4;
      ram.Store(sp, 0);
      sp := sp - 4;
      ram.Store(sp, 0);
      sp := sp - 4;
      ram.Store(sp, 0);
      sp := sp - 4;
      ram.Store(sp, 0);
      ram.Store(Cell(layout, slot), sp);
    }

    /** The running task may store anywhere in its own stack, and in heap blocks that are nobody's stack. */
    ghost predicate MayWrite(a: int)
      reads this, tasks, heap
      requires Wired() && 0 <= current < MAX_TASKS && 0 <= spawnedCount <= MAX_TASKS
    {
      && Aligned(a)
      && (|| Lo(Abs(), layout, current) <= a <= Hi(Abs(), layout, current) - 4
          || exists b :: b in Live(heap.blocks) && b.Payload() <= a < b.End() && NoStack(Abs(), b))
    }

    /** A store by the running task. */
    method Work(a: int, v: word)
      requires Valid() && ready && 0 <= current < MAX_TASKS && 0 <= spawnedCount <= MAX_TASKS && MayWrite(a)
      modifies ram
      ensures Valid() && Put(old(ram.m), ram.m, a, v)
    {
      ghost var m0 := ram.m;
      ram.Store(a, v);
      WorkIsHarmless(Abs(), heap.Abs(), m0, ram.m, image, layout, a, v);
    }

    /** `operator new` by the running task. */
    method New(size: word) returns (p: word)
      requires Valid() && ready
      modifies heap, ram
      ensures Valid()
      ensures p != 0 ==> exists k :: Placed(old(heap.blocks), heap.blocks, Round(size), p, k)
      ensures p == 0 ==> heap.Abs() == old(heap.Abs()) && ram.m == old(ram.m)
      ensures SameOutside(old(ram.m), ram.m, heap.base, heap.end)
    {
      hide Good, Resumable, Owned, OnePreempted, PayloadsKept, SameOutside, Placed;
      ghost var s, h0, m0 := Abs(), heap.Abs(), ram.m;
      p := heap.Alloc(size);
      if p != 0 {
        ghost var k :| Placed(h0.blocks, heap.blocks, Round(size), p, k);
        NewKeepsStacks(s, m0, ram.m, image, layout, h0, heap.Abs(), Round(size), p, k);
      }
    }

    /** `operator delete` by the running task, of anything that is not a task's stack. */
    method Delete(p: word)
      requires Valid() && ready
      requires p == 0 || FreeArgument(ram.m, heap.blocks, Wrap(p - HEADER))
      requires 0 <= spawnedCount <= MAX_TASKS && forall i :: 1 <= i < spawnedCount ==> p != tasks[i].stackBase
      modifies heap, ram
      ensures Valid()
      ensures p != 0 ==> heap.blocks == FreeOne(old(heap.blocks), Wrap(p - HEADER))
      ensures SameOutside(old(ram.m), ram.m, heap.base, heap.end)
    {
      hide Good, Resumable, Owned, OnePreempted, PayloadsKept, SameOutside, FreeOne, FreeArgument;
      PayloadsUnchanged(ram.m, {}, heap.base, heap.end);
      if p == 0 { return; }
      ghost var s, h0, m0 := Abs(), heap.Abs(), ram.m;
      heap.Free(p);
      DeleteKeepsStacks(s, m0, ram.m, image, layout, h0, heap.Abs(), p);
    }

    /** The caller's part of the call: arguments right to left, then the return address. */
    method PushCall(newEsp: word, oldEspSave: word, site: word)
      requires cpu.ram == ram && cpu.esp >= 12 && Aligned(cpu.esp)
      modifies cpu`esp, ram
      ensures cpu.esp == old(cpu.esp) - 12
      ensures Load(ram.m, cpu.esp) == site && Load(ram.m, cpu.esp + 4) == oldEspSave
              && Load(ram.m, cpu.esp + 8) == newEsp
      ensures SameBut(old(ram.m), ram.m, cpu.esp, old(cpu.esp), cpu.esp)
    {
      cpu.Push(newEsp);
      cpu.Push(oldEspSave);
      cpu.Push(site);
    }

    /** The call `switch_task(&tasks[prev].esp, tasks[next].esp)` and what runs where it returns. */
    method Switch(prev: int, next: int, site: word, ghost s: Sched)
      requires Wired() && 0 <= prev < MAX_TASKS && 0 <= next < MAX_TASKS
      requires site == IN_YIELD || site == IN_PREEMPT
      requires Resumable(s, ram.m, image, layout) && s.current == prev && next == Next(s) != prev
      requires Lo(s, layout, prev) + 28 <= cpu.esp <= Hi(s, layout, prev) && Aligned(cpu.esp)
      modifies this`inPreempt, cpu, ram
      ensures SwitchedOut(s, old(ram.m), ram.m, layout, old(cpu.ContextAt(site)))
      ensures next in s.saved && cpu.ContextAt(cpu.eip) == s.saved[next]
      ensures inPreempt == (old(inPreempt) && cpu.eip != IN_PREEMPT)
    {
      hide Resumable, Apart, Waiting, Lo, Hi, Next, Shape, Cell, Sound, Pushed, FrameAt, SwitchedOut, SameBut;
      ghost var e, m0, ctx := cpu.esp, ram.m, cpu.ContextAt(site);
      ghost var p := Load(m0, Cell(layout, next));
      SwitchAddresses(s, ram.m, image, layout, e);
      PushCall(Load(ram.m, Cell(layout, next)), Cell(layout, prev), site);
      ghost var m3 := ram.m;
      cpu.SwitchTask();
      PushedFrame(s, m0, m3, ram.m, layout, ctx, p);
      FrameRegisters(ram.m, p);
      if cpu.eip == IN_YIELD || cpu.eip == IN_PREEMPT {
        cpu.esp := cpu.esp + 8;
      }
      if cpu.eip == IN_PREEMPT {
        inPreempt := false;
      }
    }
  }

  lemma NothingFound(s: Sched)
    requires 0 <= s.current < |s.tasks| && FirstRunnable(s.tasks, s.current, s.ticks, 1) == 0
    ensures Next(s) == s.current && Woken(s) == s.tasks
  {
  }

  lemma WokenIs(s: Sched, step: int, idx: int)
    requires 0 <= s.current < |s.tasks| && FirstRunnable(s.tasks, s.current, s.ticks, 1) == step
             && 1 <= step <= |s.tasks|
    requires idx == Slot(s.current, step, |s.tasks|)
    ensures 0 <= idx < |s.tasks| && Next(s) == idx && Woken(s) == s.tasks[idx := s.tasks[idx].(state := Ready)]
  {
    SlotIsRemainder(s.current, step, |s.tasks|);
  }

  lemma SleepFacts(s: Sched, ms: word, m: Mem, image: map<int, Mem>, k: Layout, bs: seq<Block>)
    requires Resumable(s, m, image, k) && Owned(s, bs) && OnePreempted(s)
    ensures Shape(s) && 0 <= s.current < |s.tasks|
    ensures var t := FallenAsleep(s, ms);
            && Resumable(t, m, image, k) && Owned(t, bs) && OnePreempted(t)
            && t == s.(tasks := s.tasks[s.current := s.tasks[s.current].(
                                sleepUntil := Wrap(s.ticks + SleepTicks(ms)), state := Sleeping)])
            && Lo(t, k, s.current) == Lo(s, k, s.current) && Hi(t, k, s.current) == Hi(s, k, s.current)
  {
    hide SleepTicks;
    var t := FallenAsleep(s, ms);
    assert forall i :: 0 <= i < |s.tasks| ==>
              && t.tasks[i].stackBase == s.tasks[i].stackBase
              && t.tasks[i].stackTop == s.tasks[i].stackTop;
    ResumableByStacks(s, t, m, image, k);
    assert forall i :: Within(t, i) <==> Within(s, i);
  }

  lemma PreemptFacts(s: Sched, ctx: Context, m: Mem, image: map<int, Mem>, k: Layout, bs: seq<Block>)
    requires Resumable(s, m, image, k) && Owned(s, bs) && OnePreempted(s) && !s.inPreempt && ctx.eip == IN_PREEMPT
    ensures Shape(s) && 0 <= s.current < |s.tasks|
    ensures var t := s.(inPreempt := true);
            && Resumable(t, m, image, k) && Owned(t, bs)
            && Lo(t, k, s.current) == Lo(s, k, s.current) && Hi(t, k, s.current) == Hi(s, k, s.current)
    ensures OnePreempted(Preempted(s, ctx))
  {
    ResumableByStacks(s, s.(inPreempt := true), m, image, k);
    PreemptKeepsTable(s, ctx);
  }

  lemma FlagIsNotPlacement(s: Sched, m: Mem, image: map<int, Mem>, k: Layout, bs: seq<Block>)
    requires Resumable(s, m, image, k) && Owned(s, bs)
    ensures Resumable(s.(inPreempt := false), m, image, k) && Owned(s.(inPreempt := false), bs)
  {
    ResumableByStacks(s, s.(inPreempt := false), m, image, k);
  }

  lemma TickFacts(s: Sched, m: Mem, image: map<int, Mem>, k: Layout, bs: seq<Block>)
    requires Resumable(s, m, image, k) && Owned(s, bs) && OnePreempted(s)
    ensures var t := s.(ticks := Wrap(s.ticks + 1));
            && Resumable(t, m, image, k) && Owned(t, bs) && OnePreempted(t)
            && Lo(t, k, s.current) == Lo(s, k, s.current) && Hi(t, k, s.current) == Hi(s, k, s.current)
    ensures Shape(s) && 0 <= s.current < |s.tasks|
  {
    var t := s.(ticks := Wrap(s.ticks + 1));
    ResumableByStacks(s, t, m, image, k);
    assert forall i :: Within(t, i) <==> Within(s, i);
  }

  /** m and n agree except in [lo, hi) and at one cell. */
  ghost predicate SameBut(m: Mem, n: Mem, lo: int, hi: int, cell: int) {
    forall x {:trigger Load(n, x)} :: x != cell && !(lo <= x < hi) ==> Load(n, x) == Load(m, x)
  }

  /** The frame `switch_task` pushes under the two arguments and the return address. */
  lemma PushedFrame(s: Sched, m: Mem, m3: Mem, n: Mem, k: Layout, ctx: Context, p: int)
    requires 0 <= s.current < |s.tasks|
    requires var e, cell := ctx.esp, Cell(k, s.current);
             && Lo(s, k, s.current) + 28 <= e <= Hi(s, k, s.current) && Aligned(e) && (cell < e - 28 || e <= cell)
             && (p + 20 <= e - 28 || e <= p) && (cell < p || p + 20 <= cell)
             && Load(m3, e - 12) == ctx.eip && SameBut(m, m3, e - 12, e, e - 12)
             && Pushed(m3, n, e - 12, ctx.ebp, ctx.ebx, ctx.esi, ctx.edi, cell)
    requires ctx.eip == IN_YIELD || ctx.eip == IN_PREEMPT
    ensures SwitchedOut(s, m, n, k, ctx)
    ensures FrameAt(n, p) == FrameAt(m, p)
  {
  }

  lemma FrameRegisters(m: Mem, p: int)
    ensures var c := FrameAt(m, p);
            && c.eip == Load(m, p + 16) && c.ebp == Load(m, p + 12) && c.ebx == Load(m, p + 8)
            && c.esi == Load(m, p + 4) && c.edi == Load(m, p) && c.esp == p + 20 + ArgumentBytes(c.eip)
  {
  }

  /** Writes to the running task's own stack and to the table miss every heap header. */
  lemma StackWritesKeepHeap(s: Sched, h: HeapState, m: Mem, n: Mem, image: map<int, Mem>, k: Layout, e: int)
    requires Good(h, m) && h.ready && h.base == k.heapLo && h.end == k.heapHi
    requires Resumable(s, m, image, k) && Owned(s, h.blocks)
    requires Lo(s, k, s.current) + 28 <= e <= Hi(s, k, s.current) && Aligned(e)
    requires SameBut(m, n, e - 28, e, Cell(k, s.current))
    ensures Good(h, n)
  {
    hide SumUsed, SumFree, CountUsed, Coalesced, Grained;
    StackWritesKeepChain(s, m, n, k, h.blocks, e);
  }

  lemma StackWritesKeepChain(s: Sched, m: Mem, n: Mem, k: Layout, bs: seq<Block>, e: int)
    requires Sound(k) && Shape(s) && |s.tasks| == MAX_TASKS && Apart(s, k) && Owned(s, bs)
    requires Tiled(bs, k.heapLo, k.heapHi) && Chain(m, bs, 0)
    requires Lo(s, k, s.current) + 28 <= e <= Hi(s, k, s.current) && Aligned(e)
    requires SameBut(m, n, e - 28, e, Cell(k, s.current))
    ensures Chain(n, bs, 0)
  {
    if s.current == 0 {
      KeepsHeap(m, n, bs, k.heapLo, k.heapHi);
    } else {
      assert StackBlock(bs, s.tasks[s.current].stackBase);
      var b :| b in Live(bs) && b.Payload() == s.tasks[s.current].stackBase && b.size >= STACK_SIZE;
      CellsOutside(s, k, 0, s.current);
      PayloadWritesKeepHeap(m, n, bs, k.heapLo, k.heapHi, b, e - 28, e);
    }
  }

  lemma YieldIs(s: Sched, ctx: Context, m: Mem, image: map<int, Mem>, k: Layout)
    requires Resumable(s, m, image, k)
    ensures |s.tasks| == MAX_TASKS && |Yielded(s, ctx).tasks| == MAX_TASKS
    ensures 0 <= Next(s) < MAX_TASKS ==> Hi(Yielded(s, ctx), k, Next(s)) == Hi(s, k, Next(s))
    ensures 0 <= Next(s) < s.spawned <= |s.tasks| && 0 <= s.current < |s.tasks|
    ensures var t := Yielded(s, ctx);
            && (Next(s) == s.current ==> t == s.(tasks := Woken(s)))
            && (Next(s) != s.current ==>
                  && Next(s) in s.saved
                  && t == s.(tasks := Woken(s)[s.current := Woken(s)[s.current].(
                                        yieldCount := Wrap(Woken(s)[s.current].yieldCount + 1))],
                             current := Next(s),
                             saved := s.saved[s.current := ctx] - {Next(s)},
                             inPreempt := s.inPreempt && s.saved[Next(s)].eip != IN_PREEMPT))
  {
    PickIsNearest(s);
    SameStacks(s, ctx);
  }

  /** Stacks, and who owns them, are no concern of a yield. */
  lemma YieldFacts(s: Sched, ctx: Context, m: Mem, image: map<int, Mem>, k: Layout, bs: seq<Block>)
    requires Resumable(s, m, image, k) && Owned(s, bs)
    requires ctx.eip == IN_YIELD || ctx.eip == IN_PREEMPT
    ensures Shape(s) && 0 <= s.current < |s.tasks|
    ensures ctx.eip == IN_YIELD && OnePreempted(s) ==> OnePreempted(Yielded(s, ctx))
    ensures 0 <= Next(s) < s.spawned <= |s.tasks|
    ensures Shape(Yielded(s, ctx)) && Owned(Yielded(s, ctx), bs)
    ensures var t := Yielded(s, ctx);
            && |t.tasks| == |s.tasks| && t.spawned == s.spawned
            && (forall i :: 0 <= i < |s.tasks| ==> Lo(t, k, i) == Lo(s, k, i) && Hi(t, k, i) == Hi(s, k, i))
            && (Next(s) == s.current ==> t == s.(tasks := Woken(s)))
  {
    hide OnePreempted, Waiting, Sound, Apart, StackBlock, Runnable;
    PickIsNearest(s);
    YieldKeepsShape(s, ctx);
    SameStacks(s, ctx);
    var t := Yielded(s, ctx);
    assert forall i :: 0 <= i < |s.tasks| ==>
              && t.tasks[i].stackBase == s.tasks[i].stackBase
              && t.tasks[i].stackTop == s.tasks[i].stackTop;
    if ctx.eip == IN_YIELD && OnePreempted(s) { YieldKeepsTable(s, ctx); }
  }

  /** A switch as `Yield` promises it: the abstract step is refined, and the stack of the task
      switched to, above its stack pointer, is as it was left. */
  lemma SwitchOutcome(s: Sched, m: Mem, n: Mem, image: map<int, Mem>, k: Layout, ctx: Context)
    requires Resumable(s, m, image, k) && Next(s) != s.current && SwitchedOut(s, m, n, k, ctx)
    ensures Resumable(Yielded(s, ctx), n, image[s.current := n], k)
    ensures Next(s) in s.saved && 0 <= Next(s) < |s.tasks| && Next(s) in image
    ensures SameOn(image[Next(s)], n, s.saved[Next(s)].esp, Hi(s, k, Next(s))) && Aligned(s.saved[Next(s)].esp)
    ensures SameBut(m, n, ctx.esp - 28, ctx.esp, Cell(k, s.current))
  {
    SwitchRefines(s, m, n, image, k, ctx);
  }

  lemma SpawnFootprint(m0: Mem, m1: Mem, n: Mem, k: Layout, stack: int, cell: int)
    requires SameOutside(m0, m1, k.heapLo, k.heapHi) && SameBut(m1, n, stack, stack + STACK_SIZE, cell)
    requires k.heapLo <= stack && stack + STACK_SIZE <= k.heapHi
    ensures SameBut(m0, n, k.heapLo, k.heapHi, cell)
  {
  }

  /** Four zeroed registers and the entry address. */
  ghost predicate FrameWords(m: Mem, p: int, entry: word) {
    && Load(m, p) == 0 && Load(m, p + 4) == 0 && Load(m, p + 8) == 0 && Load(m, p + 12) == 0
    && Load(m, p + 16) == entry
  }

  lemma RoundStack()
    ensures Round(STACK_SIZE) == STACK_SIZE
  {
  }

  lemma SpawnSlot(s: Sched, m: Mem, image: map<int, Mem>, k: Layout)
    requires Resumable(s, m, image, k)
    ensures Sound(k) && |s.tasks| == MAX_TASKS && 1 <= s.spawned <= MAX_TASKS
    ensures forall i :: 0 <= i < MAX_TASKS ==> (s.tasks[i].state == Unused <==> i >= s.spawned)
  {
  }

  /** The block just allocated lies apart from every stack, and all stacks are still owned. */
  lemma NewStack(s: Sched, m0: Mem, m1: Mem, image: map<int, Mem>, k: Layout, h0: HeapState, h1: HeapState,
                 stack: word, i: int)
    requires Resumable(s, m0, image, k) && Owned(s, h0.blocks)
    requires Good(h0, m0) && Good(h1, m1) && h0.ready && h1.ready && h0.base == h1.base == k.heapLo
             && h0.end == h1.end == k.heapHi
    requires Placed(h0.blocks, h1.blocks, STACK_SIZE, stack, i)
    requires PayloadsKept(m0, m1, Live(h0.blocks)) && SameOutside(m0, m1, h0.base, h0.end)
    ensures Resumable(s, m1, image, k) && Owned(s, h1.blocks) && StackBlock(h1.blocks, stack)
    ensures k.heapLo <= stack && stack + STACK_SIZE <= k.heapHi < U32 && Aligned(stack)
    ensures forall j :: 0 <= j < s.spawned ==> Hi(s, k, j) <= stack || stack + STACK_SIZE <= Lo(s, k, j)
  {
    hide Chain, Coalesced, SumUsed, SumFree, CountUsed, Grained;
    var c := Carved(h0.blocks[i], STACK_SIZE)[0];
    CarveLive(h0.blocks, h0.base, h0.end, i, STACK_SIZE);
    BlocksAligned(h0.blocks, h0.base, h0.end);
    HeapWorkKeepsStacks(s, m0, m1, image, k, h0.blocks, Live(h0.blocks));
    LiveInside(h1.blocks, h1.base, h1.end, c);
    forall j | 1 <= j < s.spawned
      ensures StackBlock(h1.blocks, s.tasks[j].stackBase)
      ensures Hi(s, k, j) <= stack || stack + STACK_SIZE <= Lo(s, k, j)
    {
      var b := BlockOf(h0.blocks, s.tasks[j].stackBase);
      assert b in Live(h1.blocks);
      LiveApart(h1.blocks, h1.base, h1.end, b, c);
    }
  }

  ghost function BlockOf(bs: seq<Block>, base: int): (b: Block)
    requires StackBlock(bs, base)
    ensures b in Live(bs) && b.Payload() == base && b.size >= STACK_SIZE
  {
    var b :| b in Live(bs) && b.Payload() == base && b.size >= STACK_SIZE;
    b
  }

  lemma LiveInside(bs: seq<Block>, lo: int, hi: int, b: Block)
    requires Tiled(bs, lo, hi) && b in Live(bs)
    ensures lo <= b.addr && b.End() <= hi
  {
    TiledIsOrdered(bs, lo, hi);
  }

  /** Two live blocks never share a byte. */
  lemma LiveApart(bs: seq<Block>, lo: int, hi: int, b: Block, c: Block)
    requires Tiled(bs, lo, hi) && b in Live(bs) && c in Live(bs) && b != c
    ensures b.End() <= c.addr || c.End() <= b.addr
  {
    TiledIsOrdered(bs, lo, hi);
    var i :| 0 <= i < |bs| && bs[i] == b;
    var j :| 0 <= j < |bs| && bs[j] == c;
    assert i < j || j < i;
  }

  lemma FormattedStack(s: Sched, h: HeapState, m: Mem, n: Mem, image: map<int, Mem>, k: Layout, entry: word,
                       stack: word)
    requires Resumable(s, m, image, k) && Owned(s, h.blocks) && OnePreempted(s) && s.spawned < MAX_TASKS
    requires Good(h, m) && h.ready && h.base == k.heapLo && h.end == k.heapHi && StackBlock(h.blocks, stack)
    requires 0 < stack && k.heapLo <= stack && stack + STACK_SIZE <= k.heapHi < U32 && Aligned(stack)
    requires forall j :: 0 <= j < s.spawned ==> Hi(s, k, j) <= stack || stack + STACK_SIZE <= Lo(s, k, j)
    requires entry != IN_YIELD && entry != IN_PREEMPT
    requires SameBut(m, n, stack, stack + STACK_SIZE, Cell(k, s.spawned))
    requires Load(n, Cell(k, s.spawned)) == stack + STACK_SIZE - 20 && FrameWords(n, stack + STACK_SIZE - 20, entry)
    ensures Good(h, n) && Shape(s) && Shape(Spawned(s, entry, stack))
    ensures Resumable(Spawned(s, entry, stack), n, image[s.spawned := n], k)
    ensures Owned(Spawned(s, entry, stack), h.blocks) && OnePreempted(Spawned(s, entry, stack))
    ensures Spawned(s, entry, stack) ==
            s.(tasks := s.tasks[s.spawned := Task(Ready, 0, s.spawned, 0, stack, stack + STACK_SIZE)],
               spawned := s.spawned + 1,
               saved := s.saved[s.spawned := Context(entry, 0, 0, 0, 0, stack + STACK_SIZE)])
  {
    hide Coalesced, SumUsed, SumFree, CountUsed, Grained, Tiled, Chain, Good, Aligned;
    FormatKeepsHeap(h, m, n, k, stack, Cell(k, s.spawned), s.spawned);
    SpawnResumable(s, m, n, image, k, entry, stack);
    SpawnKeepsTable(s, entry, stack);
    SpawnKeepsShape(s, entry, stack);
    SpawnOwned(s, k, h.blocks, entry, stack);
  }

  /** Laying out the first frame stays inside the stack's own block. */
  lemma FormatKeepsHeap(h: HeapState, m: Mem, n: Mem, k: Layout, stack: word, cell: int, slot: int)
    requires Good(h, m) && h.ready && h.base == k.heapLo && h.end == k.heapHi && StackBlock(h.blocks, stack)
    requires Sound(k) && 0 <= slot < MAX_TASKS && cell == Cell(k, slot) && Aligned(stack)
    requires SameBut(m, n, stack, stack + STACK_SIZE, cell)
    ensures Good(h, n)
  {
    hide Coalesced, SumUsed, SumFree, CountUsed, Grained, Chain;
    var b := BlockOf(h.blocks, stack);
    CellBelowHeap(k, slot);
    PayloadWritesKeepHeap(m, n, h.blocks, k.heapLo, k.heapHi, b, stack, stack + STACK_SIZE);
  }

  lemma SpawnOwned(s: Sched, k: Layout, bs: seq<Block>, entry: word, stack: word)
    requires Shape(s) && Owned(s, bs) && StackBlock(bs, stack) && stack + STACK_SIZE < U32
    ensures Owned(Spawned(s, entry, stack), bs)
  {
    SpawnKeepsShape(s, entry, stack);
  }

  ghost predicate NoStack(s: Sched, b: Block)
    requires s.spawned <= |s.tasks|
  {
    forall i :: 1 <= i < s.spawned ==> s.tasks[i].stackBase != b.Payload()
  }

  lemma WorkIsHarmless(s: Sched, h: HeapState, m: Mem, n: Mem, image: map<int, Mem>, k: Layout, a: int, v: word)
    requires Good(h, m) && h.ready && h.base == k.heapLo && h.end == k.heapHi
    requires Resumable(s, m, image, k) && Owned(s, h.blocks) && Put(m, n, a, v)
    requires Aligned(a)
    requires Lo(s, k, s.current) <= a <= Hi(s, k, s.current) - 4 ||
             exists b :: b in Live(h.blocks) && b.Payload() <= a < b.End() && NoStack(s, b)
    ensures Good(h, n) && Resumable(s, n, image, k)
  {
    hide Good, Waiting, Aligned;
    if Lo(s, k, s.current) <= a <= Hi(s, k, s.current) - 4 {
      OwnStackOnly(s, m, n, image, k);
      OwnStackKeepsHeap(s, h, m, n, image, k, a, v);
    } else {
      var b :| b in Live(h.blocks) && b.Payload() <= a < b.End() && NoStack(s, b);
      BlockWriteKeepsHeap(h, m, n, b, a, v);
      OtherBlockOnly(s, h, m, n, image, k, b, a, v);
    }
  }

  /** A word stored in a live block disturbs no header. */
  lemma BlockWriteKeepsHeap(h: HeapState, m: Mem, n: Mem, b: Block, a: int, v: word)
    requires Good(h, m) && h.ready && Put(m, n, a, v) && Aligned(a)
    requires b in Live(h.blocks) && b.Payload() <= a < b.End()
    ensures Good(h, n)
  {
    hide Coalesced, SumUsed, SumFree, CountUsed, Grained, Chain, Live, Aligned;
    LastWord(h.blocks, h.base, h.end, b, a);
    PayloadWritesKeepHeap(m, n, h.blocks, h.base, h.end, b, a, a + 4);
  }

  lemma OwnStackKeepsHeap(s: Sched, h: HeapState, m: Mem, n: Mem, image: map<int, Mem>, k: Layout, a: int, v: word)
    requires Good(h, m) && h.ready && h.base == k.heapLo && h.end == k.heapHi
    requires Resumable(s, m, image, k) && Owned(s, h.blocks) && Put(m, n, a, v) && Aligned(a)
    requires Lo(s, k, s.current) <= a <= Hi(s, k, s.current) - 4
    ensures Good(h, n)
  {
    hide Coalesced, SumUsed, SumFree, CountUsed, Grained, Chain, Waiting, Aligned;
    if s.current == 0 {
      KeepsHeap(m, n, h.blocks, k.heapLo, k.heapHi);
    } else {
      BlockWriteKeepsHeap(h, m, n, BlockOf(h.blocks, s.tasks[s.current].stackBase), a, v);
    }
  }

  lemma OtherBlockOnly(s: Sched, h: HeapState, m: Mem, n: Mem, image: map<int, Mem>, k: Layout, b: Block, a: int,
                       v: word)
    requires Good(h, m) && h.ready && h.base == k.heapLo && h.end == k.heapHi
    requires Resumable(s, m, image, k) && Owned(s, h.blocks) && Put(m, n, a, v)
    requires b in Live(h.blocks) && b.Payload() <= a < b.End() && NoStack(s, b)
    ensures Resumable(s, n, image, k)
  {
    hide Tiled, Chain, Coalesced, Grained, SumUsed, SumFree, CountUsed;
    LiveInside(h.blocks, h.base, h.end, b);
    forall c | c in Live(h.blocks) - {b}
      ensures SameOn(m, n, c.Payload(), c.End())
    {
      LiveApart(h.blocks, h.base, h.end, b, c);
    }
    HeapWorkKeepsStacks(s, m, n, image, k, h.blocks, Live(h.blocks) - {b});
  }

  lemma NewKeepsStacks(s: Sched, m: Mem, n: Mem, image: map<int, Mem>, k: Layout, h: HeapState, h': HeapState,
                       size: word, p: word, i: int)
    requires Resumable(s, m, image, k) && Owned(s, h.blocks)
    requires Good(h, m) && h.ready && h.base == k.heapLo && h.end == k.heapHi
    requires Placed(h.blocks, h'.blocks, size, p, i)
    requires PayloadsKept(m, n, Live(h.blocks)) && SameOutside(m, n, h.base, h.end)
    ensures Resumable(s, n, image, k) && Owned(s, h'.blocks)
  {
    hide Chain, Coalesced, SumUsed, SumFree, CountUsed, Grained;
    CarveLive(h.blocks, h.base, h.end, i, size);
    HeapWorkKeepsStacks(s, m, n, image, k, h.blocks, Live(h.blocks));
    forall j | 1 <= j < s.spawned
      ensures StackBlock(h'.blocks, s.tasks[j].stackBase)
    {
      var b := BlockOf(h.blocks, s.tasks[j].stackBase);
      assert b in Live(h'.blocks);
    }
  }

  lemma DeleteKeepsStacks(s: Sched, m: Mem, n: Mem, image: map<int, Mem>, k: Layout, h: HeapState, h': HeapState,
                          p: word)
    requires Resumable(s, m, image, k) && Owned(s, h.blocks)
    requires Good(h, m) && h.ready && h.base == k.heapLo && h.end == k.heapHi
    requires h'.blocks == FreeOne(h.blocks, Wrap(p - HEADER)) && p != 0
    requires forall i :: 1 <= i < s.spawned ==> p != s.tasks[i].stackBase
    requires PayloadsKept(m, n, Live(h'.blocks)) && SameOutside(m, n, h.base, h.end)
    ensures Resumable(s, n, image, k) && Owned(s, h'.blocks)
  {
    hide Chain, SumUsed, SumFree, CountUsed, Grained, FreeOne;
    FreeOneLive(h.blocks, h.base, h.end, Wrap(p - HEADER));
    hide Tiled, Coalesced;
    forall b, j | b in Live(h.blocks) && 1 <= j < s.spawned && b.Payload() == s.tasks[j].stackBase
      ensures b in Live(h'.blocks)
    {
      assert b.addr != Wrap(p - HEADER);
    }
    HeapWorkKeepsStacks(s, m, n, image, k, h.blocks, Live(h'.blocks));
    forall j | 1 <= j < s.spawned
      ensures StackBlock(h'.blocks, s.tasks[j].stackBase)
    {
      var b := BlockOf(h.blocks, s.tasks[j].stackBase);
      assert b in Live(h'.blocks);
    }
  }

  lemma NoChange(m: Mem)
    ensures forall lo, hi, cell :: SameBut(m, m, lo, hi, cell)
  {
  }

  lemma SwitchAddresses(s: Sched, m: Mem, image: map<int, Mem>, k: Layout, e: int)
    requires Resumable(s, m, image, k) && Next(s) != s.current
    requires Lo(s, k, s.current) + 28 <= e <= Hi(s, k, s.current)
    ensures 0 <= Next(s) < s.spawned && Next(s) in s.saved
    ensures var p := Load(m, Cell(k, Next(s)));
            && Aligned(p) && p + 20 <= FrameAt(m, p).esp < U32 && FrameAt(m, p) == s.saved[Next(s)]
            && (Cell(k, s.current) < p || p + 20 <= Cell(k, s.current))
            && Lo(s, k, Next(s)) <= p && (p + 20 <= Lo(s, k, s.current) || Hi(s, k, s.current) <= p)
    ensures Cell(k, s.current) < e - 28 || e <= Cell(k, s.current)
    ensures Load(m, Cell(k, Next(s))) + 20 <= e - 28 || e <= Load(m, Cell(k, Next(s)))
    ensures 0 <= Cell(k, s.current) < U32 && Aligned(Cell(k, s.current))
    ensures 28 < e < U32 && 0 <= s.current < |s.tasks|
  {
    PickIsNearest(s);
    var next := Next(s);
    CellsOutside(s, k, s.current, s.current);
    CellsOutside(s, k, next, s.current);
    assert Waiting(s, m, image, k, next);
    assert Hi(s, k, next) <= Lo(s, k, s.current) || Hi(s, k, s.current) <= Lo(s, k, next);
  }

  lemma CellBelowHeap(k: Layout, i: int)
    requires Sound(k) && 0 <= i < MAX_TASKS
    ensures 0 <= Cell(k, i) < k.heapLo < U32 && Aligned(Cell(k, i))
  {
  }

  lemma CellInTable(k: Layout, i: int)
    requires Sound(k) && 0 <= i < MAX_TASKS
    ensures k.table <= Cell(k, i) < k.table + TASK_BYTES * MAX_TASKS && Aligned(Cell(k, i))
  {
  }

  lemma BootFacts(h: HeapState, m: Mem, n: Mem, k: Layout, ticks: word)
    requires Good(h, m) && h.ready && Sound(k) && h.base == k.heapLo && h.end == k.heapHi
    requires SameOutside(m, n, k.table, k.table + TASK_BYTES * MAX_TASKS)
    ensures var s := Booted(MAX_TASKS).(ticks := ticks);
            Good(h, n) && Resumable(s, n, map[], k) && OnePreempted(s) && Owned(s, h.blocks)
  {
    hide SumUsed, SumFree, CountUsed;
    KeepsHeap(m, n, h.blocks, h.base, h.end);
  }

  lemma KeepsHeap(m: Mem, n: Mem, bs: seq<Block>, lo: int, hi: int)
    requires Tiled(bs, lo, hi) && Chain(m, bs, 0)
    requires forall x {:trigger Load(n, x)} :: lo <= x < hi ==> Load(n, x) == Load(m, x)
    ensures Chain(n, bs, 0)
  {
    ChainFrame(m, n, bs, lo, hi, 0);
  }
}
