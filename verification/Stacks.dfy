/** Where tasks keep their stacks, and what memory must hold for a suspended task to be resumable. */
module Stacks {
  import opened Words
  import opened SchedSpec
  import opened CpuModule
  import opened HeapSpec
  import opened HeapMemory

  /** Fixed addresses: the task table and the boot stack in the kernel image, the heap above. */
  datatype Layout = Layout(table: int, kernelLo: int, kernelHi: int, heapLo: int, heapHi: int)

  const TASK_BYTES: int := 44

  /** The address of `tasks[i].esp`. */
  function Cell(k: Layout, i: int): int {
    k.table + TASK_BYTES * i
  }

  /** The eight slots of the task table lie one behind the other, 44 bytes each, 352 in all. */
  lemma SlotsSpelledOut(k: Layout, i: int)
    requires Sound(k) && 0 <= i < 8
    ensures Cell(k, 0) == k.table && Cell(k, i + 1) - Cell(k, i) == 44
    ensures k.table <= Cell(k, i) && Cell(k, i) + 44 <= k.table + 352 <= k.heapLo
  {
  }

  ghost predicate Sound(k: Layout) {
    && 0 < k.kernelLo <= k.kernelHi <= k.heapLo <= k.heapHi < U32
    && 0 < k.table && Aligned(k.table) && k.table + TASK_BYTES * MAX_TASKS <= k.heapLo
    && (k.kernelHi <= k.table || k.table + TASK_BYTES * MAX_TASKS <= k.kernelLo)
  }

  function Lo(s: Sched, k: Layout, i: int): int
    requires 0 <= i < |s.tasks|
  {
    if i == 0 then k.kernelLo else s.tasks[i].stackBase
  }

  function Hi(s: Sched, k: Layout, i: int): int
    requires 0 <= i < |s.tasks|
  {
    if i == 0 then k.kernelHi else s.tasks[i].stackTop
  }

  /** The stacks of all spawned tasks are pairwise disjoint, the spawned ones inside the heap. */
  ghost predicate Apart(s: Sched, k: Layout)
    requires s.spawned <= |s.tasks|
  {
    && (forall i :: 1 <= i < s.spawned ==> k.heapLo <= Lo(s, k, i) && Hi(s, k, i) <= k.heapHi)
    && (forall i, j :: 0 <= i < s.spawned && 0 <= j < s.spawned && i != j ==>
          Hi(s, k, i) <= Lo(s, k, j) || Hi(s, k, j) <= Lo(s, k, i))
  }

  /** Task i can be resumed: its saved stack pointer is inside its stack, the frame there is the
      saved context, and everything above it is as it was when the task was suspended. */
  ghost predicate Waiting(s: Sched, m: Mem, image: map<int, Mem>, k: Layout, i: int)
    requires 0 <= i < |s.tasks| && i in s.saved
  {
    var p := Load(m, Cell(k, i));
    && i in image && Aligned(p)
    && Lo(s, k, i) <= p && FrameAt(m, p).esp <= Hi(s, k, i)
    && FrameAt(m, p) == s.saved[i]
    && SameOn(image[i], m, p, Hi(s, k, i))
  }

  ghost predicate Resumable(s: Sched, m: Mem, image: map<int, Mem>, k: Layout) {
    && Sound(k) && Shape(s) && |s.tasks| == MAX_TASKS
    && Apart(s, k)
    && forall i :: i in s.saved ==> Waiting(s, m, image, k, i)
  }

  lemma WaitingFrame(s: Sched, t: Sched, m: Mem, n: Mem, image: map<int, Mem>, image': map<int, Mem>, k: Layout, i: int)
    requires 0 <= i < |s.tasks| && i in s.saved && Waiting(s, m, image, k, i)
    requires 0 <= i < |t.tasks| && i in t.saved && t.saved[i] == s.saved[i]
    requires Lo(t, k, i) == Lo(s, k, i) && Hi(t, k, i) == Hi(s, k, i)
    requires i in image' && image'[i] == image[i]
    requires Load(n, Cell(k, i)) == Load(m, Cell(k, i))
    requires SameOn(m, n, Lo(s, k, i), Hi(s, k, i))
    ensures Waiting(t, n, image', k, i)
  {
  }

  /** Nothing the running task does in its own stack reaches a suspended one. */
  lemma OwnStackOnly(s: Sched, m: Mem, n: Mem, image: map<int, Mem>, k: Layout)
    requires Resumable(s, m, image, k)
    requires SameOutside(m, n, Lo(s, k, s.current), Hi(s, k, s.current))
    ensures Resumable(s, n, image, k)
  {
    forall i | i in s.saved
      ensures Waiting(s, n, image, k, i)
    {
      CellsOutside(s, k, s.current, i);
      WaitingFrame(s, s, m, n, image, image, k, i);
    }
  }

  /** The table lies outside every stack. */
  lemma CellsOutside(s: Sched, k: Layout, i: int, j: int)
    requires Sound(k) && Shape(s) && |s.tasks| == MAX_TASKS && Apart(s, k)
    requires 0 <= i < s.spawned && 0 <= j < MAX_TASKS
    ensures Cell(k, j) < Lo(s, k, i) || Hi(s, k, i) <= Cell(k, j)
    ensures k.table <= Cell(k, j) < k.heapLo
  {
    assert i >= 1 ==> k.heapLo <= Lo(s, k, i);
  }

  /** What the switch from the running task to `next` does to memory: the running task's frame
      below its stack pointer, and its stack pointer in its table entry. */
  ghost predicate SwitchedOut(s: Sched, m: Mem, n: Mem, k: Layout, ctx: Context)
    requires 0 <= s.current < |s.tasks|
  {
    var e := ctx.esp;
    && Lo(s, k, s.current) + 28 <= e <= Hi(s, k, s.current) && Aligned(e)
    && Load(n, Cell(k, s.current)) == e - 28
    && FrameAt(n, e - 28) == ctx
    && forall x {:trigger Load(n, x)} :: x != Cell(k, s.current) && !(e - 28 <= x < e) ==> Load(n, x) == Load(m, x)
  }

  /** A switch writes nothing that a suspended task relies on. */
  lemma OthersStillWait(s: Sched, m: Mem, n: Mem, image: map<int, Mem>, k: Layout, ctx: Context)
    requires Resumable(s, m, image, k) && SwitchedOut(s, m, n, k, ctx)
    ensures forall i :: i in s.saved ==> Waiting(s, n, image, k, i) && i in image
    ensures forall i :: i in s.saved ==> Load(n, Cell(k, i)) == Load(m, Cell(k, i))
  {
    forall i | i in s.saved
      ensures Waiting(s, n, image, k, i) && i in image && Load(n, Cell(k, i)) == Load(m, Cell(k, i))
    {
      CellsOutside(s, k, s.current, i);
      CellsOutside(s, k, i, s.current);
      assert Hi(s, k, i) <= Lo(s, k, s.current) || Hi(s, k, s.current) <= Lo(s, k, i);
      WaitingFrame(s, s, m, n, image, image, k, i);
    }
  }

  /** The real switch refines the abstract one: the caller becomes resumable with exactly the
      context it had, every other suspended task keeps its frame and its whole stack, and the
      task switched to finds both as it left them. */
  lemma SwitchRefines(s: Sched, m: Mem, n: Mem, image: map<int, Mem>, k: Layout, ctx: Context)
    requires Resumable(s, m, image, k) && Next(s) != s.current
    requires SwitchedOut(s, m, n, k, ctx)
    ensures Resumable(Yielded(s, ctx), n, image[s.current := n], k)
    ensures 0 <= Next(s) < s.spawned && Next(s) in s.saved && Next(s) in image
    ensures var p := Load(m, Cell(k, Next(s)));
            && Lo(s, k, Next(s)) <= p && p + 20 <= Hi(s, k, Next(s))
            && FrameAt(n, p) == s.saved[Next(s)]
            && SameOn(image[Next(s)], n, p, Hi(s, k, Next(s)))
  {
    hide Waiting, Lo, Hi, Sound, SwitchedOut, FrameAt;
    PickIsNearest(s);
    YieldKeepsShape(s, ctx);
    SameStacks(s, ctx);
    var t, image' := Yielded(s, ctx), image[s.current := n];
    assert Apart(t, k);
    OthersStillWait(s, m, n, image, k, ctx);
    CallerWaits(s, m, n, image', k, ctx);
    forall i | i in t.saved
      ensures Waiting(t, n, image', k, i)
    {
      if i != s.current {
        WaitingFrame(s, t, n, n, image, image', k, i);
      }
    }
    FrameFits(s, n, image, k, Next(s));
  }

  /** The caller can be resumed with the context it had. */
  lemma CallerWaits(s: Sched, m: Mem, n: Mem, image: map<int, Mem>, k: Layout, ctx: Context)
    requires Shape(s) && Next(s) != s.current && SwitchedOut(s, m, n, k, ctx)
    requires s.current in image && image[s.current] == n
    ensures 0 <= s.current < |Yielded(s, ctx).tasks| && s.current in Yielded(s, ctx).saved
    ensures Waiting(Yielded(s, ctx), n, image, k, s.current)
  {
    PickIsNearest(s);
    SameStacks(s, ctx);
  }

  lemma FrameFits(s: Sched, m: Mem, image: map<int, Mem>, k: Layout, i: int)
    requires 0 <= i < |s.tasks| && i in s.saved && Waiting(s, m, image, k, i)
    ensures var p := Load(m, Cell(k, i));
            && Lo(s, k, i) <= p && p + 20 <= Hi(s, k, i)
            && FrameAt(m, p) == s.saved[i]
            && i in image && SameOn(image[i], m, p, Hi(s, k, i))
  {
  }

  lemma SameStacks(s: Sched, ctx: Context)
    requires Shape(s)
    ensures var t := Yielded(s, ctx);
            && |t.tasks| == |s.tasks| && t.spawned == s.spawned
            && forall k, i :: 0 <= i < |s.tasks| ==> Lo(t, k, i) == Lo(s, k, i) && Hi(t, k, i) == Hi(s, k, i)
  {
    PickIsNearest(s);
  }

  /** Placement does not depend on states, deadlines, counters or the clock. */
  lemma ResumableByStacks(s: Sched, t: Sched, m: Mem, image: map<int, Mem>, k: Layout)
    requires Resumable(s, m, image, k) && Shape(t) && |t.tasks| == |s.tasks|
    requires t.spawned == s.spawned && t.saved == s.saved
    requires forall i :: 0 <= i < |s.tasks| ==> Lo(t, k, i) == Lo(s, k, i) && Hi(t, k, i) == Hi(s, k, i)
    ensures Resumable(t, m, image, k)
  {
    forall i | i in t.saved
      ensures Waiting(t, m, image, k, i)
    {
      WaitingFrame(s, t, m, m, image, image, k, i);
    }
  }

  /** The stack of every spawned task is the payload of a live heap block. */
  ghost predicate Owned(s: Sched, bs: seq<Block>)
    requires s.spawned <= |s.tasks|
  {
    forall i :: 1 <= i < s.spawned ==>
              && StackBlock(bs, s.tasks[i].stackBase)
              && s.tasks[i].stackTop == s.tasks[i].stackBase + STACK_SIZE
  }

  ghost predicate StackBlock(bs: seq<Block>, base: int) {
    exists b :: b in Live(bs) && b.Payload() == base && b.size >= STACK_SIZE
  }

  /** The heap working on other blocks leaves every suspended task as it was. */
  lemma HeapWorkKeepsStacks(s: Sched, m: Mem, n: Mem, image: map<int, Mem>, k: Layout, bs: seq<Block>, live: set<Block>)
    requires Resumable(s, m, image, k) && Owned(s, bs)
    requires PayloadsKept(m, n, live) && SameOutside(m, n, k.heapLo, k.heapHi)
    requires forall b, i :: b in Live(bs) && 1 <= i < s.spawned && b.Payload() == s.tasks[i].stackBase ==> b in live
    ensures Resumable(s, n, image, k)
  {
    forall i | i in s.saved
      ensures Waiting(s, n, image, k, i)
    {
      CellsOutside(s, k, 0, i);
      if i >= 1 {
        assert StackBlock(bs, s.tasks[i].stackBase);
        var b :| b in Live(bs) && b.Payload() == s.tasks[i].stackBase && b.size >= STACK_SIZE;
        assert SameOn(m, n, b.Payload(), b.End());
      }
      WaitingFrame(s, s, m, n, image, image, k, i);
    }
  }

  /** Laying out a stack apart from all others spares every suspended task. */
  lemma SpawnSpares(s: Sched, m: Mem, n: Mem, image: map<int, Mem>, k: Layout, stack: word)
    requires Resumable(s, m, image, k) && s.spawned < MAX_TASKS
    requires forall i :: 0 <= i < s.spawned ==> Hi(s, k, i) <= stack || stack + STACK_SIZE <= Lo(s, k, i)
    requires forall x {:trigger Load(n, x)} ::
               x != Cell(k, s.spawned) && !(stack <= x < stack + STACK_SIZE) ==> Load(n, x) == Load(m, x)
    requires k.heapLo <= stack
    ensures forall i :: i in s.saved ==> Waiting(s, n, image, k, i)
  {
    forall i | i in s.saved
      ensures Waiting(s, n, image, k, i)
    {
      CellsOutside(s, k, 0, i);
      CellsOutside(s, k, i, s.spawned);
      WaitingFrame(s, s, m, n, image, image, k, i);
    }
  }

  /** A fresh task on a stack of its own is resumable at its entry with zeroed registers. */
  lemma SpawnResumable(s: Sched, m: Mem, n: Mem, image: map<int, Mem>, k: Layout, entry: word, stack: word)
    requires Resumable(s, m, image, k) && s.spawned < MAX_TASKS && 0 < stack && Aligned(stack)
    requires k.heapLo <= stack && stack + STACK_SIZE <= k.heapHi
    requires forall i :: 0 <= i < s.spawned ==> Hi(s, k, i) <= stack || stack + STACK_SIZE <= Lo(s, k, i)
    requires entry != IN_YIELD && entry != IN_PREEMPT
    requires Load(n, Cell(k, s.spawned)) == stack + STACK_SIZE - 20
    requires FrameAt(n, stack + STACK_SIZE - 20) == Context(entry, 0, 0, 0, 0, stack + STACK_SIZE)
    requires forall x {:trigger Load(n, x)} ::
               x != Cell(k, s.spawned) && !(stack <= x < stack + STACK_SIZE) ==> Load(n, x) == Load(m, x)
    ensures Shape(Spawned(s, entry, stack)) && Resumable(Spawned(s, entry, stack), n, image[s.spawned := n], k)
  {
    var t, image' := Spawned(s, entry, stack), image[s.spawned := n];
    SpawnKeepsShape(s, entry, stack);
    SpawnSpares(s, m, n, image, k, stack);
    assert forall i :: 0 <= i < s.spawned ==> Lo(t, k, i) == Lo(s, k, i) && Hi(t, k, i) == Hi(s, k, i);
    forall i | i in t.saved
      ensures Waiting(t, n, image', k, i)
    {
      if i != s.spawned {
        WaitingFrame(s, t, n, n, image, image', k, i);
      }
    }
  }

  /** Writes past the heap reach neither a stack nor the table. */
  lemma FarWritesKeepStacks(s: Sched, m: Mem, n: Mem, image: map<int, Mem>, k: Layout)
    requires Resumable(s, m, image, k)
    requires forall x {:trigger Load(n, x)} :: x < k.heapHi ==> Load(n, x) == Load(m, x)
    ensures Resumable(s, n, image, k)
  {
    forall i | i in s.saved
      ensures Waiting(s, n, image, k, i)
    {
      CellsOutside(s, k, 0, i);
      WaitingFrame(s, s, m, n, image, image, k, i);
    }
  }
}
