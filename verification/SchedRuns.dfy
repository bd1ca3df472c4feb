/** What holds over whole runs of the scheduler, whatever the tasks do in between. */
module SchedRuns {
  import opened Words
  import opened SchedSpec

  /** A kernel entry by the running task, or a timer interrupt; ctx is where and with which
      registers the running task would come back. */
  datatype Event =
    | Tick(ctx: Context)
    | Yield(ctx: Context)
    | Sleep(ms: word, ctx: Context)
    | Spawn(entry: word, stack: word)

  predicate Legal(ev: Event) {
    match ev
    case Tick(ctx) => ctx.eip == IN_PREEMPT
    case Yield(ctx) => ctx.eip == IN_YIELD
    case Sleep(_, ctx) => ctx.eip == IN_YIELD
    case Spawn(entry, stack) => entry != IN_PREEMPT && entry != IN_YIELD && stack + STACK_SIZE < U32
  }

  ghost function Step(s: Sched, ev: Event): (r: Sched)
    requires Table(s) && Legal(ev)
  {
    match ev
    case Tick(ctx) => Ticked(s, ctx)
    case Yield(ctx) => Yielded(s, ctx)
    case Sleep(ms, ctx) => Slept(s, ms, ctx)
    case Spawn(entry, stack) => Spawned(s, entry, stack)
  }

  lemma SameSaved(s: Sched, s': Sched)
    requires Table(s) && Shape(s') && s'.saved == s.saved && s'.inPreempt == s.inPreempt
    ensures Table(s')
  {
    assert forall i :: Within(s', i) <==> Within(s, i);
  }

  lemma TickKeepsTable(s: Sched, ctx: Context)
    requires Table(s) && ctx.eip == IN_PREEMPT
    ensures Table(Ticked(s, ctx)) && |Ticked(s, ctx).tasks| == |s.tasks|
  {
    hide Preempted, Yielded;
    var s' := s.(ticks := Wrap(s.ticks + 1));
    SameSaved(s, s');
    PreemptKeepsTable(s', ctx);
  }

  lemma SleepKeepsTable(s: Sched, ms: word, ctx: Context)
    requires Table(s) && ctx.eip == IN_YIELD
    ensures Table(Slept(s, ms, ctx)) && |Slept(s, ms, ctx).tasks| == |s.tasks|
  {
    hide SleepTicks;
    SameSaved(s, FallenAsleep(s, ms));
    YieldKeepsTable(FallenAsleep(s, ms), ctx);
  }

  /** Whatever task does what, and however interrupts fall: used slots stay the prefix of the
      table, ids equal slots, every other task has one saved context, and the re-entrance flag is
      up exactly while the one preempted task waits. */
  lemma StepKeepsTable(s: Sched, ev: Event)
    requires Table(s) && Legal(ev)
    ensures Table(Step(s, ev)) && |Step(s, ev).tasks| == |s.tasks|
  {
    hide Table, Slept, Ticked;
    match ev
    case Tick(ctx) => TickKeepsTable(s, ctx);
    case Yield(ctx) => YieldKeepsTable(s, ctx);
    case Sleep(ms, ctx) => SleepKeepsTable(s, ms, ctx);
    case Spawn(entry, stack) => SpawnKeepsTable(s, entry, stack);
  }

  ghost predicate AllLegal(evs: seq<Event>) {
    forall ev :: ev in evs ==> Legal(ev)
  }

  ghost function Run(s: Sched, evs: seq<Event>): (r: Sched)
    requires Table(s) && AllLegal(evs)
    ensures Table(r) && |r.tasks| == |s.tasks|
    decreases |evs|
  {
    if evs == [] then s
    else
      StepKeepsTable(s, evs[0]);
      Run(Step(s, evs[0]), evs[1..])
  }

  /** How many of the events are timer ticks. */
  function Ticks(evs: seq<Event>): nat
    decreases |evs|
  {
    if evs == [] then 0 else (if evs[0].Tick? then 1 else 0) + Ticks(evs[1..])
  }

  lemma TicksAdvance(s: Sched, ev: Event)
    requires Table(s) && Legal(ev)
    ensures Step(s, ev).ticks == if ev.Tick? then Wrap(s.ticks + 1) else s.ticks
  {
  }

  lemma {:induction false} RunAppend(s: Sched, a: seq<Event>, b: seq<Event>)
    requires Table(s) && AllLegal(a) && AllLegal(b)
    ensures AllLegal(a + b) && Run(s, a + b) == Run(Run(s, a), b)
    decreases |a|
  {
    hide Table, Step, Legal;
    if a == [] {
      assert a + b == b;
    } else {
      StepKeepsTable(s, a[0]);
      RunAppend(Step(s, a[0]), a[1..], b);
      assert (a + b)[1..] == a[1..] + b && (a + b)[0] == a[0];
    }
  }

  lemma BootedIsTable(n: int)
    requires 1 <= n < U32
    ensures Table(Booted(n)) && Alive(Booted(n))
  {
  }

  // ---------------------------------------------------------------------------------------------
  // The kernel task never sleeps

  ghost predicate KernelAwake(s: Sched, evs: seq<Event>)
    requires Table(s) && AllLegal(evs)
    decreases |evs|
  {
    evs == [] ||
    (StepKeepsTable(s, evs[0]);
     (evs[0].Sleep? ==> s.current != 0) && KernelAwake(Step(s, evs[0]), evs[1..]))
  }

  lemma YieldStaysAlive(s: Sched, ctx: Context)
    requires Shape(s) && s.tasks[0].state == Ready
    ensures Found(s) && Alive(Yielded(s, ctx))
  {
    PickIsNearest(s);
    assert Runnable(s.tasks[0], s.ticks);
  }

  lemma TickStaysAlive(s: Sched, ctx: Context)
    requires Table(s) && Alive(s)
    ensures Alive(Ticked(s, ctx))
  {
    hide Preempted, Yielded, OnePreempted;
    var s' := s.(ticks := Wrap(s.ticks + 1));
    PreemptTicks(s', ctx);
    if !s'.inPreempt {
      PreemptIsYield(s', ctx);
      YieldStaysAlive(s'.(inPreempt := true), ctx);
    }
  }

  lemma SleepStaysAlive(s: Sched, ms: word, ctx: Context)
    requires Table(s) && Alive(s) && s.current != 0
    ensures Alive(Slept(s, ms, ctx))
  {
    YieldStaysAlive(FallenAsleep(s, ms), ctx);
  }

  lemma StepStaysAlive(s: Sched, ev: Event)
    requires Table(s) && Legal(ev) && Alive(s)
    requires ev.Sleep? ==> s.current != 0
    ensures Alive(Step(s, ev))
  {
    hide Yielded, Ticked, Slept, OnePreempted;
    match ev
    case Tick(ctx) =>
      TickStaysAlive(s, ctx);
    case Yield(ctx) =>
      YieldStaysAlive(s, ctx);
    case Sleep(ms, ctx) =>
      SleepStaysAlive(s, ms, ctx);
    case Spawn(entry, stack) =>
      SpawnKeepsTable(s, entry, stack);
  }

  /** While task 0 never sleeps, at every moment of every run the running task is READY. */
  lemma {:induction false} RunStaysAlive(s: Sched, evs: seq<Event>)
    requires Table(s) && Alive(s) && AllLegal(evs) && KernelAwake(s, evs)
    ensures Alive(Run(s, evs))
    decreases |evs|
  {
    if evs != [] {
      StepKeepsTable(s, evs[0]);
      StepStaysAlive(s, evs[0]);
      RunStaysAlive(Step(s, evs[0]), evs[1..]);
    }
  }

  /** Without that discipline a sleep may fall back to the sleeper: it leaves the running task
      READY exactly when some task is runnable once the caller has gone to sleep. */
  lemma SleepNeedsSomeoneElse(s: Sched, ms: word, ctx: Context)
    requires Table(s)
    ensures var asleep := FallenAsleep(s, ms); var r := Slept(s, ms, ctx);
            r.tasks[r.current].state == Ready <==>
              exists i :: 0 <= i < |asleep.tasks| && Runnable(asleep.tasks[i], s.ticks)
  {
    PickIsNearest(FallenAsleep(s, ms));
  }

  /** The kernel task sleeping on a freshly started table is such a case: it runs on, asleep. */
  lemma LoneSleeperRunsOn(ctx: Context)
    ensures Table(Booted(MAX_TASKS))
    ensures var r := Slept(Booted(MAX_TASKS), 1000, ctx);
            r.current == 0 && r.tasks[0].state == Sleeping
  {
    BootedIsTable(MAX_TASKS);
    var s := FallenAsleep(Booted(MAX_TASKS), 1000);
    assert forall i :: 0 <= i < |s.tasks| ==> !Runnable(s.tasks[i], 0);
    PickIsNearest(s);
  }

  // ---------------------------------------------------------------------------------------------
  // Bounded waiting

  /** The scheduler is asked to choose: by a yield, a sleep, or a tick that may preempt. */
  predicate Chooses(s: Sched, ev: Event) {
    match ev
    case Tick(_) => !s.inPreempt && Wrap(s.ticks + 1) % PREEMPT_EVERY == 0
    case Spawn(_, _) => false
    case _ => true
  }

  ghost function Choices(s: Sched, evs: seq<Event>): nat
    requires Table(s) && AllLegal(evs)
    decreases |evs|
  {
    if evs == [] then 0
    else
      StepKeepsTable(s, evs[0]);
      (if Chooses(s, evs[0]) then 1 else 0) + Choices(Step(s, evs[0]), evs[1..])
  }

  /** A choice moves the turn strictly closer to every waiting runnable task, or to it. */
  lemma YieldComesCloser(s: Sched, ctx: Context, j: int)
    requires Shape(s) && 0 <= j < |s.tasks| && j != s.current && Runnable(s.tasks[j], s.ticks)
    ensures var r := Yielded(s, ctx);
            && r.current != s.current
            && (r.current != j ==>
                  Distance(r.current, j, |s.tasks|) < Distance(s.current, j, |s.tasks|) && r.tasks[j] == s.tasks[j])
  {
    PickIsNearest(s);
  }

  lemma StepComesCloser(s: Sched, ev: Event, j: int)
    requires Table(s) && Legal(ev)
    requires 0 <= j < |s.tasks| && j != s.current && Runnable(s.tasks[j], s.ticks)
    requires s.tasks[j].state == Ready || !ev.Tick? || s.ticks + 1 < U32
    ensures var r := Step(s, ev); r.current != j ==>
              && r.tasks[j] == s.tasks[j] && Runnable(r.tasks[j], r.ticks)
              && Distance(r.current, j, |s.tasks|) <=
                   Distance(s.current, j, |s.tasks|) - (if Chooses(s, ev) then 1 else 0)
  {
    hide Preempted, Yielded, SleepTicks, Distance;
    match ev
    case Tick(ctx) =>
      var s' := s.(ticks := Wrap(s.ticks + 1));
      if s'.ticks % PREEMPT_EVERY == 0 {
        PreemptTicks(s', ctx);
        if !s'.inPreempt {
          PreemptIsYield(s', ctx);
          YieldComesCloser(s'.(inPreempt := true), ctx, j);
        }
      }
    case Yield(ctx) =>
      YieldTicks(s, ctx);
      YieldComesCloser(s, ctx, j);
    case Sleep(ms, ctx) =>
      YieldTicks(FallenAsleep(s, ms), ctx);
      YieldComesCloser(FallenAsleep(s, ms), ctx, j);
    case Spawn(entry, stack) =>
      SpawnKeepsTable(s, entry, stack);
  }

  /** A READY task is running after at most as many choices as it is slots away, so at most n - 1,
      in any run of any length: no other task can stop it or overtake it for ever. So is a task
      whose sleep is over, as long as the tick counter does not wrap around meanwhile. */
  lemma {:induction false} BoundedWaiting(s: Sched, evs: seq<Event>, j: int) returns (k: nat)
    requires Table(s) && AllLegal(evs)
    requires 0 <= j < |s.tasks| && j != s.current && Runnable(s.tasks[j], s.ticks)
    requires s.tasks[j].state == Ready || s.ticks + Ticks(evs) < U32
    requires Choices(s, evs) >= Distance(s.current, j, |s.tasks|)
    ensures Distance(s.current, j, |s.tasks|) <= |s.tasks| - 1
    ensures k <= |evs| && AllLegal(evs[..k]) && Run(s, evs[..k]).current == j
    decreases |evs|
  {
    assert evs != [];
    StepKeepsTable(s, evs[0]);
    StepComesCloser(s, evs[0], j);
    TicksAdvance(s, evs[0]);
    var s' := Step(s, evs[0]);
    if s'.current == j {
      k := 1;
      assert evs[..1] == [evs[0]];
      assert evs[..1][1..] == [];
    } else {
      var k' := BoundedWaiting(s', evs[1..], j);
      k := k' + 1;
      assert evs[..k][1..] == evs[1..][..k'];
      assert evs[..k][0] == evs[0];
    }
  }

  // ---------------------------------------------------------------------------------------------
  // Sleepers

  /** In any run with fewer ticks than are missing to u, a task asleep until u neither runs nor wakes. */
  lemma {:induction false} NeverEarly(s: Sched, evs: seq<Event>, j: int, u: word)
    requires Table(s) && AllLegal(evs)
    requires 0 <= j < |s.tasks| && j != s.current
    requires s.tasks[j].state == Sleeping && s.tasks[j].sleepUntil == u
    requires s.ticks + Ticks(evs) < u
    ensures Run(s, evs).current != j
    ensures Run(s, evs).tasks[j].state == Sleeping && Run(s, evs).tasks[j].sleepUntil == u
    decreases |evs|
  {
    if evs != [] {
      StepKeepsTable(s, evs[0]);
      TicksAdvance(s, evs[0]);
      SleeperUntouched(s, evs[0], j);
      NeverEarly(Step(s, evs[0]), evs[1..], j, u);
    }
  }

  lemma YieldSkipsSleeper(s: Sched, ctx: Context, j: int)
    requires Shape(s) && 0 <= j < |s.tasks| && j != s.current && !Runnable(s.tasks[j], s.ticks)
    ensures Yielded(s, ctx).current != j && Yielded(s, ctx).tasks[j] == s.tasks[j]
  {
    PickIsNearest(s);
  }

  lemma YieldTicks(s: Sched, ctx: Context)
    requires Shape(s)
    ensures Yielded(s, ctx).ticks == s.ticks
  {
  }

  lemma PreemptTicks(s: Sched, ctx: Context)
    requires Shape(s)
    ensures Preempted(s, ctx).ticks == s.ticks
    ensures s.inPreempt ==> Preempted(s, ctx) == s
  {
  }

  lemma SleeperUntouched(s: Sched, ev: Event, j: int)
    requires Table(s) && Legal(ev)
    requires 0 <= j < |s.tasks| && j != s.current && s.tasks[j].state == Sleeping
    requires s.ticks + (if ev.Tick? then 1 else 0) < s.tasks[j].sleepUntil
    ensures Step(s, ev).current != j && Step(s, ev).tasks[j] == s.tasks[j]
  {
    hide Preempted, Yielded, SleepTicks;
    match ev
    case Tick(ctx) =>
      var s' := s.(ticks := Wrap(s.ticks + 1));
      if s'.ticks % PREEMPT_EVERY == 0 {
        PreemptTicks(s', ctx);
        if !s'.inPreempt {
          PreemptIsYield(s', ctx);
          YieldSkipsSleeper(s'.(inPreempt := true), ctx, j);
        }
      }
    case Yield(ctx) =>
      YieldTicks(s, ctx);
      YieldSkipsSleeper(s, ctx, j);
    case Sleep(ms, ctx) =>
      YieldTicks(FallenAsleep(s, ms), ctx);
      YieldSkipsSleeper(FallenAsleep(s, ms), ctx, j);
    case Spawn(entry, stack) =>
      SpawnKeepsTable(s, entry, stack);
  }

  /** `Sleep` is over before it began, so that its caller can be chosen again at once, exactly when
      adding the sleep to the tick counter wraps around. */
  lemma DeadlineHolds(s: Sched, ms: word, ctx: Context)
    requires Table(s)
    ensures Runnable(FallenAsleep(s, ms).tasks[s.current], s.ticks) <==> s.ticks + SleepTicks(ms) >= U32
    ensures Runnable(Slept(s, ms, ctx).tasks[s.current], Slept(s, ms, ctx).ticks) <==> s.ticks + SleepTicks(ms) >= U32
  {
    assert SleepTicks(ms) >= 1;
    hide SleepTicks;
    PickIsNearest(FallenAsleep(s, ms));
  }

  /** Otherwise whoever gives up the processor by sleeping stays off it, asleep, through every run
      with fewer ticks than it asked for. */
  lemma SleepsItsTicks(s: Sched, ms: word, ctx: Context, evs: seq<Event>)
    requires Table(s) && ctx.eip == IN_YIELD && AllLegal(evs)
    requires s.ticks + SleepTicks(ms) < U32 && Slept(s, ms, ctx).current != s.current
    requires Ticks(evs) < SleepTicks(ms)
    ensures Table(Slept(s, ms, ctx))
    ensures var r := Run(Slept(s, ms, ctx), evs);
            r.current != s.current && r.tasks[s.current].state == Sleeping
  {
    var r := Slept(s, ms, ctx);
    SleepKeepsTable(s, ms, ctx);
    SleeperParked(s, ms, ctx);
    hide SleepTicks, Slept;
    NeverEarly(r, evs, s.current, Wrap(s.ticks + SleepTicks(ms)));
  }

  lemma SleeperParked(s: Sched, ms: word, ctx: Context)
    requires Table(s) && s.ticks + SleepTicks(ms) < U32 && Slept(s, ms, ctx).current != s.current
    ensures var r := Slept(s, ms, ctx);
            && |r.tasks| == |s.tasks| && r.ticks == s.ticks && r.tasks[s.current].state == Sleeping
            && r.tasks[s.current].sleepUntil == Wrap(s.ticks + SleepTicks(ms))
  {
    hide SleepTicks;
    PickIsNearest(FallenAsleep(s, ms));
  }

  /** One tick before the counter wraps around, a task alone in the table comes straight back from
      Sleep(10), READY, in the same tick. */
  lemma WrappedSleepReturnsAtOnce(ctx: Context)
    ensures var s := Booted(MAX_TASKS).(ticks := U32 - 1);
            && Table(s) && Slept(s, 10, ctx).current == 0 && Slept(s, 10, ctx).ticks == U32 - 1
            && Slept(s, 10, ctx).tasks[0].state == Ready
  {
    var s := Booted(MAX_TASKS).(ticks := U32 - 1);
    BootedIsTable(MAX_TASKS);
    var t := FallenAsleep(s, 10);
    assert SleepTicks(10) == 1;
    assert Runnable(t.tasks[0], t.ticks);
    assert forall i :: 1 <= i < |t.tasks| ==> t.tasks[i].state == Unused;
    PickIsNearest(t);
  }

  /** `Sleep(ms)` waits the promised ms / 10 ticks, at least one, exactly when ms * 100 fits in 32 bits. */
  lemma SleepLengthExact(ms: word)
    ensures SleepTicks(ms) == (if ms < 10 then 1 else ms / 10) <==> ms <= 42_949_672
  {
    var p := ms as int * TICK_HZ;
    assert p / 1000 == ms / 10;
    if ms > 42_949_672 {
      assert p >= U32;
      assert p % U32 <= p - U32;
    }
  }

  /** A sleeper that is due stops being due when the tick counter wraps around. */
  lemma DueUntilWrap(t: Task, now: word)
    requires t.state == Sleeping && Runnable(t, now)
    ensures Runnable(t, Wrap(now + 1)) <==> now + 1 < U32 || t.sleepUntil == 0
  {
  }

  /** So a deadline at the end of the counter can be missed by a whole turn of it: due for one tick
      only, which falls while no preemption is possible, the sleeper sleeps on through every run with
      fewer than 2^32 - 1 ticks. */
  lemma OversleepsAcrossWrap(s: Sched, ctx: Context, j: int, more: seq<Event>)
    requires Table(s) && ctx.eip == IN_PREEMPT && s.inPreempt && s.ticks == U32 - 2
    requires 0 <= j < |s.tasks| && j != s.current && s.tasks[j].state == Sleeping && s.tasks[j].sleepUntil == U32 - 1
    requires AllLegal(more) && Ticks(more) < U32 - 1
    ensures AllLegal([Tick(ctx)]) && AllLegal([Tick(ctx), Tick(ctx)] + more)
    ensures Runnable(Run(s, [Tick(ctx)]).tasks[j], Run(s, [Tick(ctx)]).ticks)
    ensures var r := Run(s, [Tick(ctx), Tick(ctx)] + more); r.current != j && r.tasks[j].state == Sleeping
  {
    var t, last, wrapped := Tick(ctx), s.(ticks := U32 - 1), s.(ticks := 0);
    SameSaved(s, last);
    SameSaved(s, wrapped);
    assert Step(s, t) == last && Step(last, t) == wrapped;
    RunOne(s, [], t);
    assert [t] + [] == [t];
    RunOne(last, more, t);
    RunOne(s, [t] + more, t);
    assert [t] + ([t] + more) == [t, t] + more;
    NeverEarly(wrapped, more, j, U32 - 1);
  }

  // ---------------------------------------------------------------------------------------------
  // Suspended tasks

  /** Task j runs at no moment of the run. */
  ghost predicate NeverRuns(s: Sched, evs: seq<Event>, j: int)
    requires Table(s) && AllLegal(evs)
    decreases |evs|
  {
    s.current != j &&
    (evs == [] || (StepKeepsTable(s, evs[0]); NeverRuns(Step(s, evs[0]), evs[1..], j)))
  }

  lemma StepKeepsSaved(s: Sched, ev: Event, j: int)
    requires Table(s) && Legal(ev) && j in s.saved && Step(s, ev).current != j
    ensures j in Step(s, ev).saved && Step(s, ev).saved[j] == s.saved[j]
  {
    hide OnePreempted, SleepTicks;
    match ev
    case Tick(ctx) =>
      PickIsNearest(s.(ticks := Wrap(s.ticks + 1), inPreempt := true));
    case Yield(ctx) =>
      PickIsNearest(s);
    case Sleep(ms, ctx) =>
      PickIsNearest(FallenAsleep(s, ms));
    case Spawn(entry, stack) =>
      SpawnKeepsShape(s, entry, stack);
  }

  /** Until it is chosen, a suspended task keeps the context it was suspended with, whatever the
      others do; and that context is what the machine resumes it with. */
  lemma {:induction false} SavedStays(s: Sched, evs: seq<Event>, j: int)
    requires Table(s) && AllLegal(evs) && j in s.saved && NeverRuns(s, evs, j)
    ensures j in Run(s, evs).saved && Run(s, evs).saved[j] == s.saved[j]
    decreases |evs|
  {
    if evs != [] {
      StepKeepsTable(s, evs[0]);
      StepKeepsSaved(s, evs[0], j);
      SavedStays(Step(s, evs[0]), evs[1..], j);
    }
  }

  // ---------------------------------------------------------------------------------------------
  // Spelled out

  /** Who can be chosen: READY is what `Spawn` makes, and a sleeper at its deadline or past it. */
  lemma RunnableSpelledOut(t: Task, now: word)
    ensures Runnable(t, now) <==> t.state == Ready || (t.state == Sleeping && t.sleepUntil <= now)
  {
  }

  /** The ticks of a sleep: the 32-bit product with 100, in thousandths rounded down, at least 1. */
  lemma SleepTicksSpelledOut(ms: word)
    ensures var p, n := (ms as int * 100) % 0x1_0000_0000, SleepTicks(ms) as int;
            n >= 1 && p < 1000 * (n + 1) && (1000 * n <= p || n == 1)
  {
  }

  /** What `Sleep` writes in the table: deadline and state of the running task, nothing else. */
  lemma FallenAsleepSpelledOut(s: Sched, ms: word)
    requires 0 <= s.current < |s.tasks|
    ensures var r, me := FallenAsleep(s, ms), s.tasks[s.current];
            && (r.tasks[s.current].sleepUntil - s.ticks - SleepTicks(ms)) % 0x1_0000_0000 == 0
            && r.tasks == s.tasks[s.current := me.(state := Sleeping, sleepUntil := r.tasks[s.current].sleepUntil)]
            && r == s.(tasks := r.tasks)
  {
    hide SleepTicks;
  }

  /** The table at the start: the caller in slot 0, seven slots unused and numbered 2^32 - 1. */
  lemma BootedSpelledOut(i: int)
    ensures var s := Booted(MAX_TASKS);
            && |s.tasks| == 8 && s.current == 0 && s.spawned == 1 && !s.inPreempt && s.saved == map[]
            && s.tasks[0] == Task(Ready, 0, 0, 0, 0, 0)
            && (1 <= i < 8 ==> s.tasks[i] == Task(Unused, 0, 0xFFFF_FFFF, 0, 0, 0))
  {
  }

  /** A yield that switches: the caller's count goes up by one, the chosen task is READY and current,
      the caller's context is saved and the chosen one's taken out; nothing else changes. */
  lemma YieldSpelledOut(s: Sched, ctx: Context)
    requires Table(s) && Yielded(s, ctx).current != s.current
    ensures var r := Yielded(s, ctx); var c, n := s.current, r.current;
            && 0 <= n < |s.tasks| && n in s.saved && Runnable(s.tasks[n], s.ticks)
            && (r.tasks[c].yieldCount - s.tasks[c].yieldCount - 1) % 0x1_0000_0000 == 0
            && r.tasks[c] == s.tasks[c].(yieldCount := r.tasks[c].yieldCount)
            && r.tasks[n] == s.tasks[n].(state := Ready)
            && (forall i :: 0 <= i < |s.tasks| && i != c && i != n ==> r.tasks[i] == s.tasks[i])
            && c in r.saved && r.saved[c] == ctx && n !in r.saved
            && (forall i :: i in s.saved && i != c && i != n ==> i in r.saved && r.saved[i] == s.saved[i])
            && r.ticks == s.ticks && r.spawned == s.spawned
  {
    hide OnePreempted;
    PickIsNearest(s);
  }

  /** Whose turn it is: every slot a yield passes over, going up from the caller's and on from slot 0,
      holds a task that is neither READY nor a sleeper whose time has come. Without a switch only the
      caller's own state may change, to READY when it is one of these two. */
  lemma TurnSpelledOut(s: Sched, ctx: Context, j: int)
    requires Table(s) && 0 <= j < |s.tasks|
    ensures var r := Yielded(s, ctx); var c, n, t := s.current, r.current, s.tasks[j];
            && (c < j < n || (n < c && (c < j || j < n)) || (n == c && j != c) ==>
                t.state != Ready && (t.state == Sleeping ==> s.ticks < t.sleepUntil))
            && (n == c ==>
                && (j != c ==> r.tasks[j] == t)
                && (j == c ==> r.tasks[j] == t.(state := r.tasks[j].state))
                && (j == c ==> (t.state == Sleeping && s.ticks < t.sleepUntil <==> r.tasks[j].state != Ready))
                && r == s.(tasks := r.tasks))
  {
    hide OnePreempted;
    PickIsNearest(s);
  }

  /** A timer interrupt: the clock goes up by one, modulo 2^32. Unless it then stands at a multiple of 5
      with nobody suspended in a preemption, that is all; if it does, the rest is what a yield does. */
  lemma TickSpelledOut(s: Sched, ctx: Context)
    requires Table(s)
    ensures var r := Ticked(s, ctx); var y := Yielded(s.(ticks := r.ticks, inPreempt := true), ctx);
            && (r.ticks - s.ticks - 1) % 0x1_0000_0000 == 0
            && (r.ticks % 5 != 0 || s.inPreempt ==> r == s.(ticks := r.ticks))
            && (r.ticks % 5 == 0 && !s.inPreempt ==>
                r == y.(inPreempt := r.current != s.current && s.saved[r.current].eip != IN_PREEMPT))
  {
    hide OnePreempted, Woken;
  }

  /** A task gets the lowest unused slot of the table, READY, with the 4096 bytes from `stack` up as its
      stack, and would come back at its entry with four zeros in the registers. */
  lemma SpawnSpelledOut(s: Sched, entry: word, stack: word)
    requires Table(s) && 0 < stack < 0xFFFF_F000
    ensures var r := Spawned(s, entry, stack); var n := s.spawned;
            && (n == |s.tasks| ==> r == s)
            && (n < |s.tasks| ==>
                && (forall i :: 0 <= i < n ==> s.tasks[i].state != Unused) && s.tasks[n].state == Unused
                && r.tasks == s.tasks[n := Task(Ready, 0, n, 0, stack, stack + 4096)]
                && r.saved == s.saved[n := Context(entry, 0, 0, 0, 0, stack + 4096)]
                && r.spawned == n + 1 && r.current == s.current && r.ticks == s.ticks
                && r.inPreempt == s.inPreempt)
  {
    hide OnePreempted;
    SpawnKeepsShape(s, entry, stack);
  }

  function Spawns(e: seq<word>, b: seq<word>): seq<Event>
    requires |e| == |b|
  {
    if e == [] then [] else [Spawn(e[0], b[0])] + Spawns(e[1..], b[1..])
  }

  /** Tasks spawned one after the other take the next slots in order, as many as there are left. */
  lemma {:induction false} SpawnedInOrder(s: Sched, e: seq<word>, b: seq<word>)
    requires Table(s) && |e| == |b| && s.spawned + |e| <= |s.tasks|
    requires forall i :: 0 <= i < |e| ==> e[i] > 2 && 0 < b[i] < 0xFFFF_F000
    ensures AllLegal(Spawns(e, b))
    ensures var r := Run(s, Spawns(e, b));
            && |r.tasks| == |s.tasks| && r.spawned == s.spawned + |e| && r.current == s.current
            && (forall i :: 0 <= i < s.spawned || r.spawned <= i < |s.tasks| ==> r.tasks[i] == s.tasks[i])
            && (forall i :: 0 <= i < |e| ==>
                r.tasks[s.spawned + i] == Task(Ready, 0, s.spawned + i, 0, b[i], b[i] + 4096))
    decreases |e|
  {
    if e != [] {
      var ev := Spawn(e[0], b[0]);
      SpawnSpelledOut(s, e[0], b[0]);
      StepKeepsTable(s, ev);
      var t := Step(s, ev);
      SpawnedInOrder(t, e[1..], b[1..]);
      RunOne(s, Spawns(e[1..], b[1..]), ev);
      hide Step, Table, Run, Spawns;
      var r := Run(t, Spawns(e[1..], b[1..]));
      forall i | 0 <= i < |e|
        ensures r.tasks[s.spawned + i] == Task(Ready, 0, s.spawned + i, 0, b[i], b[i] + 4096)
      {
        if i > 0 { assert r.tasks[t.spawned + (i - 1)].id == t.spawned + (i - 1); }
      }
    }
  }

  /** Right after the start there is room for seven tasks: four of them are slots 1 to 4. */
  lemma FourSpawned(e: seq<word>, b: seq<word>)
    requires |e| == 4 && |b| == 4 && forall i :: 0 <= i < 4 ==> e[i] > 2 && 0 < b[i] < 0xFFFF_F000
    ensures Table(Booted(MAX_TASKS)) && AllLegal(Spawns(e, b))
    ensures var r := Run(Booted(MAX_TASKS), Spawns(e, b));
            && |r.tasks| == 8 && r.spawned == 5 && r.current == 0 && r.tasks[0].state == Ready
            && r.tasks[1] == Task(Ready, 0, 1, 0, b[0], b[0] + 4096)
            && r.tasks[2] == Task(Ready, 0, 2, 0, b[1], b[1] + 4096)
            && r.tasks[3] == Task(Ready, 0, 3, 0, b[2], b[2] + 4096)
            && r.tasks[4] == Task(Ready, 0, 4, 0, b[3], b[3] + 4096)
            && (forall i :: 5 <= i < 8 ==> r.tasks[i].state == Unused)
  {
    BootedIsTable(MAX_TASKS);
    var s := Booted(MAX_TASKS);
    SpawnedInOrder(s, e, b);
    var r := Run(s, Spawns(e, b));
    hide Run, Spawns, Table;
    assert r.tasks[s.spawned + 0].id == 1 && r.tasks[s.spawned + 1].id == 2;
    assert r.tasks[s.spawned + 2].id == 3 && r.tasks[s.spawned + 3].id == 4;
  }

  // ---------------------------------------------------------------------------------------------
  // Preemption

  /** A tick takes the CPU away exactly when its number is a multiple of 5, nobody is waiting
      inside `PreemptiveYield`, and another task is runnable. */
  lemma TickPreempts(s: Sched, ctx: Context)
    requires Table(s)
    ensures var now := Wrap(s.ticks + 1);
            Ticked(s, ctx).current != s.current <==>
              && now % PREEMPT_EVERY == 0 && !s.inPreempt
              && exists i :: 0 <= i < |s.tasks| && i != s.current && Runnable(s.tasks[i], now)
  {
    var s' := s.(ticks := Wrap(s.ticks + 1), inPreempt := true);
    PickIsNearest(s');
    assert Next(s') != s.current ==> Runnable(s'.tasks[Next(s')], s'.ticks);
  }

  /** So once a task has been preempted, no number of ticks takes the CPU from its successor: it
      keeps running until it yields or sleeps of its own accord. */
  lemma {:induction false} NoSecondPreemption(s: Sched, evs: seq<Event>)
    requires Table(s) && AllLegal(evs) && s.inPreempt
    requires forall ev :: ev in evs ==> ev.Tick? || ev.Spawn?
    ensures Run(s, evs).current == s.current && Run(s, evs).inPreempt
    decreases |evs|
  {
    if evs != [] {
      StepKeepsTable(s, evs[0]);
      NoSecondPreemption(Step(s, evs[0]), evs[1..]);
    }
  }

  /** Five ticks, each finding the running task where ctx says. */
  function FiveTicks(ctx: Context): seq<Event> {
    [Tick(ctx), Tick(ctx), Tick(ctx), Tick(ctx), Tick(ctx)]
  }

  /** That happens at the first preemption after boot: once a task is spawned, the fifth tick
      switches to it, and from then on no run of ticks and spawns takes the processor from it. */
  lemma PreemptedOnceForAll(ctx: Context, entry: word, stack: word, more: seq<Event>)
    requires ctx.eip == IN_PREEMPT && Legal(Spawn(entry, stack)) && stack != 0
    requires AllLegal(more) && forall ev :: ev in more ==> ev.Tick? || ev.Spawn?
    ensures Table(Booted(MAX_TASKS)) && AllLegal([Spawn(entry, stack)] + FiveTicks(ctx) + more)
    ensures var r := Run(Booted(MAX_TASKS), [Spawn(entry, stack)] + FiveTicks(ctx) + more);
            r.inPreempt && r.current == 1
  {
    BootedIsTable(MAX_TASKS);
    var evs := [Spawn(entry, stack)] + FiveTicks(ctx);
    FirstPreemption(ctx, entry, stack);
    RunAppend(Booted(MAX_TASKS), evs, more);
    NoSecondPreemption(Run(Booted(MAX_TASKS), evs), more);
  }

  lemma FirstPreemption(ctx: Context, entry: word, stack: word)
    requires ctx.eip == IN_PREEMPT && Legal(Spawn(entry, stack)) && stack != 0
    ensures Table(Booted(MAX_TASKS)) && AllLegal([Spawn(entry, stack)] + FiveTicks(ctx))
    ensures var r := Run(Booted(MAX_TASKS), [Spawn(entry, stack)] + FiveTicks(ctx));
            r.inPreempt && r.current == 1
  {
    BootedIsTable(MAX_TASKS);
    var evs := [Spawn(entry, stack)] + FiveTicks(ctx);
    var s := Step(Booted(MAX_TASKS), evs[0]);
    assert s.tasks[1].state == Ready && s.current == 0 && s.ticks == 0;
    StepKeepsTable(Booted(MAX_TASKS), evs[0]);
    FourTicks(s, ctx);
    assert evs[1..] == FiveTicks(ctx);
    var four := s.(ticks := 4);
    var fifth := four.(ticks := 5, inPreempt := true);
    PickIsNearest(fifth);
    assert Runnable(fifth.tasks[1], 5);
  }

  /** Four ticks from tick 0 only count. */
  lemma FourTicks(s: Sched, ctx: Context)
    requires Table(s) && ctx.eip == IN_PREEMPT && s.ticks == 0 && !s.inPreempt
    ensures AllLegal(FiveTicks(ctx)) && Table(s.(ticks := 4))
    ensures Run(s, FiveTicks(ctx)) == Step(s.(ticks := 4), Tick(ctx))
  {
    var t := Tick(ctx);
    QuietTick(s, ctx);
    QuietTick(s.(ticks := 1), ctx);
    QuietTick(s.(ticks := 2), ctx);
    QuietTick(s.(ticks := 3), ctx);
    hide Step, Table, Run;
    RunOne(s, [t, t, t, t], t);
    RunOne(s.(ticks := 1), [t, t, t], t);
    RunOne(s.(ticks := 2), [t, t], t);
    RunOne(s.(ticks := 3), [t], t);
    RunOne(s.(ticks := 4), [], t);
  }

  lemma QuietTick(s: Sched, ctx: Context)
    requires Table(s) && ctx.eip == IN_PREEMPT && s.ticks < 4
    ensures Step(s, Tick(ctx)) == s.(ticks := s.ticks + 1) && Table(s.(ticks := s.ticks + 1))
  {
    SameSaved(s, s.(ticks := s.ticks + 1));
  }

  lemma RunOne(s: Sched, rest: seq<Event>, ev: Event)
    requires Table(s) && Legal(ev) && AllLegal(rest)
    ensures Table(Step(s, ev)) && AllLegal([ev] + rest) && Run(s, [ev] + rest) == Run(Step(s, ev), rest)
    ensures rest == [] ==> Run(s, [ev] + rest) == Step(s, ev)
  {
    StepKeepsTable(s, ev);
    assert ([ev] + rest)[1..] == rest;
  }
}
