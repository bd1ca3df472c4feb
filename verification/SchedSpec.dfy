/**
 The scheduler as a value: the task table, whose turn it is, and the saved context of every task
 that is not running. One function per kernel entry point, and the laws of every run.
 */
module SchedSpec {
  import opened Words

  const MAX_TASKS: int := 8
  const STACK_SIZE: word := 4096
  const TICK_HZ: int := 100
  const PREEMPT_EVERY: int := 5

  /** The two places `switch_task` can return to: the call in `Yield`, and the copy of it that
      runs under the timer interrupt inside `PreemptiveYield`. */
  const IN_YIELD: word := 1
  const IN_PREEMPT: word := 2

  datatype State = Unused | Ready | Sleeping | Done

  datatype Task = Task(state: State, sleepUntil: word, id: word, yieldCount: word, stackBase: word, stackTop: word)

  /** What comes back when a task is resumed: where to, and with which registers. */
  datatype Context = Context(eip: word, ebp: word, ebx: word, esi: word, edi: word, esp: int)

  datatype Sched = Sched(
    tasks: seq<Task>, current: int, spawned: int, ticks: word, inPreempt: bool, saved: map<int, Context>)

  // ---------------------------------------------------------------------------------------------
  // Choosing the next task

  predicate Runnable(t: Task, now: word) {
    t.state == Ready || (t.state == Sleeping && now >= t.sleepUntil)
  }

  /** The slot `step` places after c in a table of n. */
  function Slot(c: int, step: int, n: int): int {
    if c + step < n then c + step else c + step - n
  }

  lemma SlotIsRemainder(c: int, step: int, n: int)
    requires 0 <= c < n && 0 <= step <= n
    ensures Slot(c, step, n) == (c + step) % n && 0 <= Slot(c, step, n) < n
  {
  }

  /** How many places after c the slot j comes, 0 being c itself. */
  function Distance(c: int, j: int, n: int): int {
    if j >= c then j - c else j - c + n
  }

  /** The first of the places step, step+1, .., n after c that holds a runnable task; 0 if none. */
  function FirstRunnable(tasks: seq<Task>, c: int, now: word, step: int): (r: int)
    requires 0 <= c < |tasks| && 1 <= step <= |tasks| + 1
    ensures r == 0 || step <= r <= |tasks|
    ensures r == 0 ==> forall s :: step <= s <= |tasks| ==> !Runnable(tasks[Slot(c, s, |tasks|)], now)
    ensures r != 0 ==> Runnable(tasks[Slot(c, r, |tasks|)], now)
    ensures r != 0 ==> forall s :: step <= s < r ==> !Runnable(tasks[Slot(c, s, |tasks|)], now)
    decreases |tasks| - step
  {
    if step > |tasks| then 0
    else if Runnable(tasks[Slot(c, step, |tasks|)], now) then step
    else FirstRunnable(tasks, c, now, step + 1)
  }

  function Next(s: Sched): int
    requires 0 <= s.current < |s.tasks|
  {
    var step := FirstRunnable(s.tasks, s.current, s.ticks, 1);
    if step == 0 then s.current else Slot(s.current, step, |s.tasks|)
  }

  predicate Found(s: Sched)
    requires 0 <= s.current < |s.tasks|
  {
    FirstRunnable(s.tasks, s.current, s.ticks, 1) != 0
  }

  /** `PickNext` falls back to the running task exactly when no task at all is runnable;
      otherwise it takes the runnable task that comes soonest after the running one. */
  lemma PickIsNearest(s: Sched)
    requires 0 <= s.current < |s.tasks|
    ensures 0 <= Next(s) < |s.tasks|
    ensures Found(s) <==> exists i :: 0 <= i < |s.tasks| && Runnable(s.tasks[i], s.ticks)
    ensures Found(s) ==> Runnable(s.tasks[Next(s)], s.ticks)
    ensures !Found(s) ==> Next(s) == s.current
    ensures forall j :: 0 <= j < |s.tasks| && j != s.current && Runnable(s.tasks[j], s.ticks) ==>
              0 < Distance(s.current, Next(s), |s.tasks|) <= Distance(s.current, j, |s.tasks|)
  {
    var n, c := |s.tasks|, s.current;
    var r := FirstRunnable(s.tasks, c, s.ticks, 1);
    forall j | 0 <= j < n && Runnable(s.tasks[j], s.ticks)
      ensures Found(s)
      ensures j != c ==> 0 < Distance(c, Next(s), n) <= Distance(c, j, n)
    {
      var d := if j == c then n else Distance(c, j, n);
      assert Slot(c, d, n) == j;
    }
  }

  // ---------------------------------------------------------------------------------------------
  // What every run keeps

  /** The used slots are the first `spawned` ones, numbered in order, none of them done, and
      every task but the running one has a saved context. */
  ghost predicate Shape(s: Sched) {
    && 1 <= s.spawned <= |s.tasks| < U32
    && 0 <= s.current < s.spawned
    && (forall i :: 0 <= i < |s.tasks| ==> (s.tasks[i].state == Unused <==> i >= s.spawned))
    && (forall i :: 0 <= i < s.spawned ==> s.tasks[i].id == i && s.tasks[i].state != Done)
    && (forall i :: i in s.saved <==> 0 <= i < s.spawned && i != s.current)
  }

  /** Task i is suspended inside `PreemptiveYield`. */
  ghost predicate Within(s: Sched, i: int) {
    i in s.saved && s.saved[i].eip == IN_PREEMPT
  }

  /** The re-entrance flag is up exactly while a task is suspended inside `PreemptiveYield`,
      and there is never more than one. */
  ghost predicate OnePreempted(s: Sched) {
    && (s.inPreempt <==> exists i :: Within(s, i))
    && (forall i, j :: Within(s, i) && Within(s, j) ==> i == j)
  }

  ghost predicate Table(s: Sched) {
    Shape(s) && OnePreempted(s)
  }

  /** The kernel task, slot 0, and the running task are READY. */
  ghost predicate Alive(s: Sched) {
    0 <= s.current < |s.tasks| && s.tasks[0].state == Ready && s.tasks[s.current].state == Ready
  }

  // ---------------------------------------------------------------------------------------------
  // The kernel entry points

  /** The table `Start` makes: the caller becomes task 0, all other slots are unused. */
  function Booted(n: int): Sched
    requires 1 <= n
  {
    Sched(seq(n, i => if i == 0 then Task(Ready, 0, 0, 0, 0, 0) else Task(Unused, 0, U32 - 1, 0, 0, 0)),
          0, 1, 0, false, map[])
  }

  /** The table after `PickNext`: the chosen task is READY, nothing else changes. */
  function Woken(s: Sched): seq<Task>
    requires 0 <= s.current < |s.tasks|
  {
    PickIsNearest(s);
    if Found(s) then s.tasks[Next(s) := s.tasks[Next(s)].(state := Ready)] else s.tasks
  }

  /** `Yield` by a task that would resume with context ctx. A task resumed in the middle of
      `PreemptiveYield` clears the re-entrance flag. */
  ghost function Yielded(s: Sched, ctx: Context): Sched
    requires Shape(s)
  {
    PickIsNearest(s);
    var next := Next(s);
    var tasks := Woken(s);
    if next == s.current then s.(tasks := tasks)
    else
      var me := tasks[s.current];
      s.(tasks := tasks[s.current := me.(yieldCount := Wrap(me.yieldCount + 1))],
         current := next,
         saved := s.saved[s.current := ctx] - {next},
         inPreempt := s.inPreempt && s.saved[next].eip != IN_PREEMPT)
  }

  /** `(ms * TICK_HZ) / 1000` in 32 bits, and at least one tick. */
  function SleepTicks(ms: word): word {
    var t := (ms as int * TICK_HZ) % U32 / 1000;
    if t == 0 then 1 else t
  }

  function FallenAsleep(s: Sched, ms: word): Sched
    requires 0 <= s.current < |s.tasks|
  {
    var t := s.tasks[s.current].(sleepUntil := Wrap(s.ticks + SleepTicks(ms)), state := Sleeping);
    s.(tasks := s.tasks[s.current := t])
  }

  ghost function Slept(s: Sched, ms: word, ctx: Context): Sched
    requires Shape(s)
  {
    Yielded(FallenAsleep(s, ms), ctx)
  }

  ghost function Preempted(s: Sched, ctx: Context): Sched
    requires Shape(s)
  {
    if s.inPreempt then s
    else
      var r := Yielded(s.(inPreempt := true), ctx);
      if r.current == s.current then r.(inPreempt := false) else r
  }

  ghost function Ticked(s: Sched, ctx: Context): Sched
    requires Shape(s)
  {
    var s' := s.(ticks := Wrap(s.ticks + 1));
    if s'.ticks % PREEMPT_EVERY == 0 then Preempted(s', ctx) else s'
  }

  /** The lowest unused slot; |tasks| if none. */
  function FreeSlot(tasks: seq<Task>, i: int): (r: int)
    requires 0 <= i <= |tasks|
    ensures i <= r <= |tasks|
    ensures r < |tasks| ==> tasks[r].state == Unused
    ensures forall k :: i <= k < r ==> tasks[k].state != Unused
    decreases |tasks| - i
  {
    if i == |tasks| || tasks[i].state == Unused then i else FreeSlot(tasks, i + 1)
  }

  /** `Spawn` with its stack at `stack`, 0 standing for an allocation that failed. */
  ghost function Spawned(s: Sched, entry: word, stack: word): Sched
    requires Shape(s) && stack + STACK_SIZE < U32
  {
    var slot := FreeSlot(s.tasks, 0);
    if slot == |s.tasks| || stack == 0 then s
    else
      var top := stack + STACK_SIZE;
      s.(tasks := s.tasks[slot := Task(Ready, 0, s.spawned, 0, stack, top)],
         spawned := s.spawned + 1,
         saved := s.saved[slot := Context(entry, 0, 0, 0, 0, top)])
  }

  // ---------------------------------------------------------------------------------------------
  // Each entry point keeps the table

  lemma YieldKeepsShape(s: Sched, ctx: Context)
    requires Shape(s)
    ensures Shape(Yielded(s, ctx)) && |Yielded(s, ctx).tasks| == |s.tasks|
  {
    PickIsNearest(s);
    var r := Yielded(s, ctx);
    assert s.tasks[Next(s)].state != Unused || Next(s) == s.current;
  }

  lemma YieldKeepsTable(s: Sched, ctx: Context)
    requires Table(s) && ctx.eip != IN_PREEMPT
    ensures Table(Yielded(s, ctx)) && |Yielded(s, ctx).tasks| == |s.tasks|
  {
    YieldKeepsShape(s, ctx);
    WithinAfterYield(s, ctx);
    var r := Yielded(s, ctx);
    if s.inPreempt {
      var i :| Within(s, i);
      assert i != r.current ==> Within(r, i);
      assert Within(s, r.current) ==> r.current == i;
    }
  }

  /** Who is suspended inside `PreemptiveYield` after a yield: the same tasks, less the one
      resumed, and the caller if that is where it yields from. */
  lemma WithinAfterYield(s: Sched, ctx: Context)
    requires Shape(s)
    ensures var r := Yielded(s, ctx);
            forall i :: Within(r, i) <==>
              (Within(s, i) && i != r.current) || (i == s.current != r.current && ctx.eip == IN_PREEMPT)
  {
    PickIsNearest(s);
  }

  lemma PreemptKeepsTable(s: Sched, ctx: Context)
    requires Table(s) && ctx.eip == IN_PREEMPT
    ensures Table(Preempted(s, ctx)) && |Preempted(s, ctx).tasks| == |s.tasks|
  {
    if !s.inPreempt {
      var s' := s.(inPreempt := true);
      assert forall i :: Within(s', i) <==> Within(s, i);
      YieldKeepsShape(s', ctx);
      WithinAfterYield(s', ctx);
      var r := Yielded(s', ctx);
      var p := Preempted(s, ctx);
      assert forall i :: Within(p, i) <==> Within(r, i);
      assert r.current != s.current ==> Within(r, s.current);
      assert r.current != s.current ==> !Within(s, r.current);
    }
  }

  /** Apart from the flag, a preemption is the yield it makes. */
  lemma PreemptIsYield(s: Sched, ctx: Context)
    requires Shape(s) && !s.inPreempt
    ensures var y, p := Yielded(s.(inPreempt := true), ctx), Preempted(s, ctx);
            p.current == y.current && p.tasks == y.tasks && p.ticks == s.ticks && p.saved == y.saved
  {
  }

  lemma SpawnKeepsShape(s: Sched, entry: word, stack: word)
    requires Shape(s) && stack + STACK_SIZE < U32
    ensures Shape(Spawned(s, entry, stack)) && FreeSlot(s.tasks, 0) == s.spawned
    ensures |Spawned(s, entry, stack).tasks| == |s.tasks|
    ensures stack != 0 && s.spawned < |s.tasks| ==>
              (Spawned(s, entry, stack) ==
               s.(tasks := s.tasks[s.spawned := Task(Ready, 0, s.spawned, 0, stack, stack + STACK_SIZE)],
                  spawned := s.spawned + 1,
                  saved := s.saved[s.spawned := Context(entry, 0, 0, 0, 0, stack + STACK_SIZE)]))
  {
    assert s.spawned < |s.tasks| ==> s.tasks[s.spawned].state == Unused;
  }

  lemma SpawnKeepsTable(s: Sched, entry: word, stack: word)
    requires Table(s) && stack + STACK_SIZE < U32 && entry != IN_PREEMPT
    ensures Table(Spawned(s, entry, stack))
    ensures FreeSlot(s.tasks, 0) == s.spawned && |Spawned(s, entry, stack).tasks| == |s.tasks|
  {
    assert s.spawned < |s.tasks| ==> s.tasks[s.spawned].state == Unused;
    var r := Spawned(s, entry, stack);
    assert forall i :: Within(r, i) <==> Within(s, i);
  }
}
