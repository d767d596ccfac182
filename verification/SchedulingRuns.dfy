/**
 Whole runs of the scheduler, from the booted state or any other that satisfies
 the invariant (src/threads/thread.c, src/threads/synch.c, src/devices/timer.c).

 A contended lock_acquire is not one step: every priority that its walk raises
 may end in a reschedule, so asking for the lock, each raise and each look at
 the semaphore are steps of their own and other threads may run in between.
 */
module SchedulingRuns {
  import opened ListOrder
  import opened Bitmaps
  import opened Scheduling
  import opened SchedulingSteps
  import opened Donation

  const PRI_MIN := 0
  const PRI_DEFAULT := 31

  datatype Step =
    | Yield
    | IdleBlock
    | Exit
    | Create(tid: Tid, priority: int)
    | SemaDown(sema: SemaId)
    | SemaUp(sema: SemaId)
    | Acquire(lock: SemaId)
    | Ask(lock: SemaId)
    | Raise(lock: SemaId, priority: int)
    | Release(lock: SemaId)
    | Recheck
    | SetPriority(priority: int)
    | Sleep(ticks: int)
    | Tick

  ghost predicate Enabled(k: Kernel, step: Step)
  {
    match step
    case Yield => true
    case IdleBlock => k.current == k.idle
    case Exit => Free(k)
    case Create(t, _) => t !in k.status
    case SemaDown(s) => Free(k) && s in k.value && s in k.waiters && s !in k.holder
    case SemaUp(s) => s in k.value && s in k.waiters && s !in k.holder
    case Acquire(l) => Free(k) && l in k.holder && l in k.value && l in k.waiters && k.holder[l] == None
    case Ask(l) => Free(k) && l in k.holder && l in k.value && l in k.waiters &&
      k.holder[l] != None && k.holder[l] != Some(k.current)
    case Raise(l, p) => AwaitsSome(k, k.current) && Held(k, l) && k.prio[k.holder[l].value] < p
    case Release(l) => l in k.holder && l in k.value && l in k.waiters && k.holder[l] == Some(k.current)
    case Recheck => k.current != k.idle && k.current in k.goal && k.goal[k.current] != NoGoal &&
      k.goal[k.current].sema in k.value && k.goal[k.current].sema in k.waiters
    case SetPriority(_) => k.current in k.prio
    case Sleep(n) => Free(k) && -0x8000_0000 <= k.ticks + n < 0x8000_0000
    case Tick => true
  }

  /** The running thread is not inside sema_down and is not the idle thread. */
  predicate Free(k: Kernel)
  {
    k.current != k.idle && k.current in k.goal && k.goal[k.current] == NoGoal
  }

  ghost function Next(k: Kernel, step: Step): Kernel
    requires Enabled(k, step)
  {
    match step
    case Yield => Yielded(k)
    case IdleBlock => Blocking(k)
    case Exit => Exited(k)
    case Create(t, p) => Created(k, t, p)
    case SemaDown(s) => DownRound(k, s)
    case SemaUp(s) => Upped(k, s)
    case Acquire(l) => DownRound(k, l)
    case Ask(l) => Asking(k, l)
    case Raise(l, p) => PrioritySet(k, k.holder[l].value, p)
    case Release(l) => Released(k, l)
    case Recheck => DownRound(k, k.goal[k.current].sema)
    case SetPriority(p) => PrioritySet(k, k.current, p)
    case Sleep(n) => Slept(k, n)
    case Tick => Ticked(k)
  }

  lemma NextKeeps(k: Kernel, step: Step)
    requires Inv(k) && Enabled(k, step)
    ensures Inv(Next(k, step))
  {
    hide Inv;
    match step
    case Yield => YieldedKeeps(k);
    case IdleBlock => IdleBlocksKeeps(k);
    case Exit => ExitedKeeps(k);
    case Create(t, p) => CreatedKeeps(k, t, p);
    case SemaDown(s) => DownRoundKeeps(k, s);
    case SemaUp(s) => UppedKeeps(k, s);
    case Acquire(l) => DownRoundKeeps(k, l);
    case Ask(l) => AskingKeeps(k, l);
    case Raise(l, p) => PrioritySetKeeps(k, k.holder[l].value, p);
    case Release(l) => ReleasedKeeps(k, l);
    case Recheck => DownRoundKeeps(k, k.goal[k.current].sema);
    case SetPriority(p) => PrioritySetKeeps(k, k.current, p);
    case Sleep(n) => SleptKeeps(k, n);
    case Tick => TickedKeeps(k);
  }

  /** Where runs start: the initial thread runs, the idle thread has blocked, no
      thread waits, and every lock is free. */
  function Booted(main: Tid, idle: Tid, value: map<SemaId, nat>, locks: set<SemaId>): Kernel
  {
    Kernel(main, idle, map[main := Running, idle := Blocked], map[main := PRI_DEFAULT, idle := PRI_MIN],
           map[main := NoGoal, idle := NoGoal], [], value, map s | s in value :: [], map l | l in locks :: None, 0, map[], [])
  }

  lemma BootedThreads(main: Tid, idle: Tid, value: map<SemaId, nat>, locks: set<SemaId>, k: Kernel)
    requires main != idle && locks <= value.Keys && k == Booted(main, idle, value, locks)
    ensures Keys(k) && OnCpu(k)
    ensures ReadyOk(k.status, k.prio, k.ready, k.idle) && SleepOk(k.status, k.goal, k.wakeup, k.sleeping, k.idle)
    ensures NoneLost(k.status, k.goal, k.sleeping, k.idle)
    ensures k.current == main && k.prio == map[main := 31, idle := 0] && k.value == value && k.ready == [] && k.sleeping == []
  {
    assert k.status.Keys == {main, idle} == k.prio.Keys == k.goal.Keys;
    assert k.value.Keys == k.waiters.Keys && k.holder.Keys == locks;
  }

  lemma BootedSemas(main: Tid, idle: Tid, value: map<SemaId, nat>, locks: set<SemaId>, k: Kernel)
    requires main != idle && locks <= value.Keys && k == Booted(main, idle, value, locks)
    requires forall l :: l in locks ==> value[l] == 1
    ensures WaitOk(k.status, k.goal, k.waiters) && Wakeups(k.status, k.goal, k.waiters, k.value)
    ensures Locks(k.value, k.holder)
  {
  }

  lemma BootedInv(main: Tid, idle: Tid, value: map<SemaId, nat>, locks: set<SemaId>)
    requires main != idle && locks <= value.Keys && forall l :: l in locks ==> value[l] == 1
    ensures Inv(Booted(main, idle, value, locks))
    ensures var k := Booted(main, idle, value, locks);
      k.current == main && k.prio == map[main := 31, idle := 0] && k.value == value && k.ready == [] && k.sleeping == []
  {
    hide Booted, Keys, OnCpu, ReadyOk, SleepOk, NoneLost, WaitOk, Wakeups, Locks;
    BootedThreads(main, idle, value, locks, Booted(main, idle, value, locks));
    BootedSemas(main, idle, value, locks, Booted(main, idle, value, locks));
  }

  ghost predicate StepTo(k: Kernel, k': Kernel)
  {
    exists step :: Enabled(k, step) && k' == Next(k, step)
  }

  ghost predicate Run(trace: seq<Kernel>)
  {
    trace != [] && Inv(trace[0]) && forall i :: 0 <= i < |trace| - 1 ==> StepTo(trace[i], trace[i + 1])
  }

  /** Every state of every run satisfies the invariant. */
  lemma {:induction false} RunKeeps(trace: seq<Kernel>, n: nat)
    requires Run(trace) && n < |trace|
    ensures Inv(trace[n])
  {
    if n > 0 {
      RunKeeps(trace, n - 1);
      assert StepTo(trace[n - 1], trace[n]);
      var step :| Enabled(trace[n - 1], step) && trace[n] == Next(trace[n - 1], step);
      NextKeeps(trace[n - 1], step);
    }
  }

  /** No wakeup is lost and no lock has two holders, in every state of every run. */
  lemma NoLostWakeup(trace: seq<Kernel>, n: nat, s: SemaId)
    requires Run(trace) && n < |trace| && s in trace[n].waiters && s in trace[n].value
    ensures trace[n].waiters[s] != [] ==> trace[n].value[s] <= |Pending(trace[n].status, trace[n].goal, s)|
    ensures s in trace[n].holder ==> trace[n].value[s] == if trace[n].holder[s].Some? then 0 else 1
  {
    RunKeeps(trace, n);
  }

  // ----- pending threads are woken threads -----

  ghost function PendingOn(k: Kernel, s: SemaId): set<Tid>
  {
    Pending(k.status, k.goal, s)
  }

  /** A switch to a ready thread, or to the idle one, makes nobody pending. */
  lemma SwitchPends(k: Kernel, s: SemaId)
    requires ReadyOk(k.status, k.prio, k.ready, k.idle) && k.idle in k.goal && k.goal[k.idle] == NoGoal
    ensures PendingOn(Scheduled(k), s) == PendingOn(k, s)
  {
    ReadyPop(k.status, k.prio, k.ready, k.idle);
    hide ReadyOk;
  }

  lemma LeavesPends(k: Kernel, b: Status, g: Goal, s: SemaId)
    requires Inv(k) && b != Ready && (b == Dying ==> k.goal[k.current] == NoGoal) && (g == k.goal[k.current] || b == Blocked)
    requires k.current == k.idle ==> g == NoGoal
    ensures var k1 := k.(status := k.status[k.current := b], goal := k.goal[k.current := g]);
      PendingOn(Scheduled(k1), s) <= PendingOn(k, s)
  {
    var k1 := k.(status := k.status[k.current := b], goal := k.goal[k.current := g]);
    ReadyStatus(k.status, k.prio, k.ready, k.idle, k.current, b);
    hide ReadyOk, SleepOk, WaitOk, NoneLost, Wakeups, Locks;
    SwitchPends(k1, s);
  }

  lemma AlarmOne(k: Kernel, s: SemaId)
    requires Inv(k) && k.sleeping != []
    ensures PendingOn(Unblocked(k.(sleeping := k.sleeping[1..]), k.sleeping[0]), s) == PendingOn(k, s)
  {
    SleepPop(k.status, k.goal, k.wakeup, k.sleeping, k.idle);
    hide ReadyOk, SleepOk, WaitOk, NoneLost, Wakeups, Locks, InsertOrdered;
  }

  lemma {:induction false} AlarmPends(k: Kernel, s: SemaId)
    requires Inv(k)
    ensures PendingOn(WokenUp(k), s) == PendingOn(k, s)
    decreases |k.sleeping|
  {
    hide Inv, Unblocked, PendingOn;
    if !(k.sleeping == [] || Key(k.wakeup, k.sleeping[0]) > k.ticks) {
      WakeOneKeeps(k);
      AlarmOne(k, s);
      UnblockedSleeping(k.(sleeping := k.sleeping[1..]), k.sleeping[0]);
      AlarmPends(Unblocked(k.(sleeping := k.sleeping[1..]), k.sleeping[0]), s);
    }
  }

  lemma YieldPends(k: Kernel, s: SemaId)
    requires Inv(k)
    ensures PendingOn(Yielded(k), s) == PendingOn(k, s)
  {
    var c := k.current;
    var r := if c != k.idle then InsertOrdered(Higher(k.prio), k.ready, c) else k.ready;
    hide ReadyOk, SleepOk, WaitOk, NoneLost, Wakeups, Locks, InsertOrdered;
    if c != k.idle {
      ReadyPush(k.status, k.prio, k.ready, k.idle, c);
    } else {
      ReadyStatus(k.status, k.prio, k.ready, k.idle, c, Ready);
    }
    SwitchPends(k.(ready := r, status := k.status[c := Ready]), s);
  }

  lemma DownPends(k: Kernel, s': SemaId, s: SemaId)
    requires Inv(k) && s' in k.value && s' in k.waiters && k.current != k.idle
    ensures PendingOn(DownRound(k, s'), s) <= PendingOn(k, s)
  {
    LeavesPends(k, Blocked, Down(s'), s);
    hide ReadyOk, SleepOk, WaitOk, NoneLost, Wakeups, Locks;
  }

  /** Who sema_up makes pending was waiting, and waits no more. */
  ghost predicate WokenFrom(k: Kernel, k': Kernel, s: SemaId)
  {
    forall t :: t in PendingOn(k', s) && t !in PendingOn(k, s) ==>
      s in k.waiters && t in k.waiters[s] && s in k'.waiters && t !in k'.waiters[s]
  }

  lemma UpPends(k: Kernel, s': SemaId, s: SemaId)
    requires Inv(k) && s' in k.value && s' in k.waiters
    ensures WokenFrom(k, Upped(k, s'), s) && (s != s' ==> PendingOn(Upped(k, s'), s) <= PendingOn(k, s))
  {
    if k.waiters[s'] != [] {
      WaitersDistinct(k, s');
      LinedMembers(k, s');
      var w := Lined(k, s');
      WaitPop(k.status, k.goal, k.waiters, s', w[0], w[1..]);
      hide Inv, InsertOrdered, StableSort;
      forall t | t in PendingOn(Upped(k, s'), s) && t !in PendingOn(k, s) ensures t == w[0] && s == s' {
      }
    }
  }

  lemma IdlePends(k: Kernel, s: SemaId)
    requires Inv(k) && k.current == k.idle
    ensures PendingOn(Blocking(k), s) <= PendingOn(k, s)
  {
    LeavesPends(k, Blocked, NoGoal, s);
    assert k.goal[k.current := NoGoal] == k.goal;
  }

  lemma ExitPends(k: Kernel, s: SemaId)
    requires Inv(k) && Free(k)
    ensures PendingOn(Exited(k), s) <= PendingOn(k, s)
  {
    LeavesPends(k, Dying, NoGoal, s);
    assert k.goal[k.current := NoGoal] == k.goal;
  }

  lemma SleepPends(k: Kernel, n: int, s: SemaId)
    requires Inv(k) && Free(k)
    ensures PendingOn(Slept(k, n), s) <= PendingOn(k, s)
  {
    LeavesPends(k, Blocked, NoGoal, s);
    assert k.goal[k.current := NoGoal] == k.goal;
    hide Inv, InsertOrdered;
  }

  lemma CreatePends(k: Kernel, t: Tid, p: int, s: SemaId)
    requires Inv(k) && t !in k.status
    ensures PendingOn(Created(k, t, p), s) == PendingOn(k, s)
  {
    hide Inv, InsertOrdered;
  }

  lemma AskPends(k: Kernel, l: SemaId, s: SemaId)
    requires Free(k)
    ensures PendingOn(Asking(k, l), s) == PendingOn(k, s)
  {
  }

  lemma PriorityPends(k: Kernel, t: Tid, p: int, s: SemaId)
    ensures PendingOn(PrioritySet(k, t, p), s) == PendingOn(k, s)
  {
    hide StableSort;
  }

  lemma ReleasePends(k: Kernel, l: SemaId, s: SemaId)
    requires Inv(k) && l in k.value && l in k.waiters && l in k.holder
    ensures WokenFrom(k, Released(k, l), s) && (s != l ==> PendingOn(Released(k, l), s) <= PendingOn(k, s))
  {
    UpPends(k, l, s);
    hide Inv, Upped;
  }

  lemma TickPends(k: Kernel, s: SemaId)
    requires Inv(k)
    ensures PendingOn(Ticked(k), s) == PendingOn(k, s)
  {
    hide Inv, WokenUp;
    TickKeeps(k);
    AlarmPends(k.(ticks := k.ticks + 1), s);
  }

  /** Only sema_up and lock_release make threads pending, and only ones that waited. */
  lemma NextPends(k: Kernel, step: Step, s: SemaId)
    requires Inv(k) && Enabled(k, step)
    ensures WokenFrom(k, Next(k, step), s)
    ensures step != SemaUp(s) && step != Release(s) ==> PendingOn(Next(k, step), s) <= PendingOn(k, s)
  {
    hide Inv, StableSort, InsertOrdered, PendingOn, WokenUp, DownRound, Upped, Yielded;
    match step
    case Yield => YieldPends(k, s);
    case IdleBlock => IdlePends(k, s);
    case Exit => ExitPends(k, s);
    case Create(t, p) => CreatePends(k, t, p, s);
    case SemaDown(s') => DownPends(k, s', s);
    case SemaUp(s') => UpPends(k, s', s);
    case Acquire(l) => DownPends(k, l, s);
    case Ask(l) => AskPends(k, l, s);
    case Raise(l, p) => PriorityPends(k, k.holder[l].value, p, s);
    case Release(l) => ReleasePends(k, l, s);
    case Recheck => DownPends(k, k.goal[k.current].sema, s);
    case SetPriority(p) => PriorityPends(k, k.current, p, s);
    case Sleep(n) => SleepPends(k, n, s);
    case Tick => TickPends(k, s);
  }

  /** Every pending thread was woken from the semaphore's waiters, in every run
      that starts with none pending, and has been pending ever since. */
  lemma {:induction false} PendingWasWoken(trace: seq<Kernel>, n: nat, t: Tid, s: SemaId) returns (m: nat)
    requires Run(trace) && n < |trace| && t !in PendingOn(trace[0], s) && t in PendingOn(trace[n], s)
    ensures m < n && s in trace[m].waiters && t in trace[m].waiters[s]
    ensures s in trace[m + 1].waiters && t !in trace[m + 1].waiters[s]
    ensures forall i :: m < i <= n ==> t in PendingOn(trace[i], s)
  {
    hide Inv, Next, Enabled, PendingOn;
    RunKeeps(trace, n - 1);
    assert StepTo(trace[n - 1], trace[n]);
    var step :| Enabled(trace[n - 1], step) && trace[n] == Next(trace[n - 1], step);
    NextPends(trace[n - 1], step, s);
    if t in PendingOn(trace[n - 1], s) {
      m := PendingWasWoken(trace, n - 1, t, s);
    } else {
      m := n - 1;
    }
  }

  // ----- an uninterrupted lock_acquire is such a run -----

  ghost predicate From(trace: seq<Kernel>, k: Kernel, k': Kernel)
  {
    Run(trace) && trace[0] == k && trace[|trace| - 1] == k'
  }

  lemma RunBefore(k: Kernel, step: Step, trace: seq<Kernel>, k': Kernel)
    requires Inv(k) && Enabled(k, step) && From(trace, Next(k, step), k')
    ensures From([k] + trace, k, k')
  {
    var longer := [k] + trace;
    hide Inv, Enabled, Next;
    forall i | 0 <= i < |longer| - 1 ensures StepTo(longer[i], longer[i + 1]) {
      if i > 0 {
        assert StepTo(trace[i - 1], trace[i]);
      }
    }
  }

  lemma RunAfter(trace: seq<Kernel>, k: Kernel, k': Kernel, step: Step)
    requires From(trace, k, k') && Enabled(k', step)
    ensures From(trace + [Next(k', step)], k, Next(k', step))
  {
    var longer := trace + [Next(k', step)];
    hide Inv, Enabled, Next;
    forall i | 0 <= i < |longer| - 1 ensures StepTo(longer[i], longer[i + 1]) {
      if i < |trace| - 1 {
        assert StepTo(trace[i], trace[i + 1]);
      }
    }
  }

  lemma RaiseStep(k: Kernel, l: SemaId, p: int)
    requires AwaitsSome(k, k.current) && Held(k, l) && k.prio[k.holder[l].value] < p
    ensures Enabled(k, Raise(l, p)) && Next(k, Raise(l, p)) == PrioritySet(k, k.holder[l].value, p)
    ensures AwaitsSome(PrioritySet(k, k.holder[l].value, p), k.current)
    ensures PrioritySet(k, k.holder[l].value, p).current == k.current
    ensures PrioritySet(k, k.holder[l].value, p).prio == k.prio[k.holder[l].value := p]
  {
    hide StableSort;
  }

  lemma RunOfOne(k: Kernel)
    requires Inv(k)
    ensures From([k], k, k)
  {
  }

  lemma {:induction false} WalkIsRun(k: Kernel, l: SemaId, p: int) returns (trace: seq<Kernel>)
    requires Inv(k) && AwaitsSome(k, k.current) && Walk(k, l, p).Some?
    ensures From(trace, k, Walk(k, l, p).value)
    decreases |Below(k.prio, p)|
  {
    hide Inv, From, Enabled, Next, PrioritySet;
    var h := k.holder[l].value;
    if k.prio[h] >= p {
      RunOfOne(k);
      trace := [k];
    } else {
      var k1 := PrioritySet(k, h, p);
      BelowShrinks(k.prio, p, h);
      PrioritySetKeeps(k, h, p);
      RaiseStep(k, l, p);
      RunOfOne(k1);
      var more := [k1];
      if AwaitsSome(k, h) {
        more := WalkIsRun(k1, k.goal[h].sema, p);
      }
      RunBefore(k, Raise(l, p), more, Walk(k, l, p).value);
      trace := [k] + more;
    }
  }

  lemma AskStep(k: Kernel, l: SemaId)
    requires Free(k) && MayAcquire(k, l) && k.holder[l].Some? && k.holder[l] != Some(k.current)
    ensures var k0 := Asking(k, l);
      Enabled(k, Ask(l)) && Next(k, Ask(l)) == k0 && AwaitsSome(k0, k0.current) && MayRecheck(k0, l)
    ensures WalkSafe(Asking(k, l), l, k.prio[k.current]) && l in k.waiters
  {
  }

  /** The running thread is in lock_acquire of `l`. */
  predicate MayRecheck(k: Kernel, l: SemaId)
  {
    k.current != k.idle && Awaits(k, k.current, l) && l in k.value && l in k.waiters
  }

  lemma RecheckStep(k: Kernel, k': Kernel, l: SemaId)
    requires MayRecheck(k, l) && k' == k.(prio := k'.prio, ready := k'.ready)
    ensures l in k'.value && l in k'.waiters && Enabled(k', Recheck) && Next(k', Recheck) == DownRound(k', l)
  {
    hide DownRound;
  }

  lemma AcquiredForm(k: Kernel, l: SemaId)
    requires MayAcquire(k, l) && k.holder[l].Some? && Walk(Asking(k, l), l, k.prio[k.current]).Some?
    ensures var k1 := Walk(Asking(k, l), l, k.prio[k.current]).value;
      l in k1.value && l in k1.waiters && Acquired(k, l) == DownRound(k1, l)
  {
    hide Walk, DownRound, WalkSafe;
  }

  /** lock_acquire without interruption is a run of the steps above. */
  lemma AcquireIsRun(k: Kernel, l: SemaId) returns (trace: seq<Kernel>)
    requires Inv(k) && Free(k) && MayAcquire(k, l) && k.holder[l] != Some(k.current)
    ensures From(trace, k, Acquired(k, l))
  {
    hide Inv, From, Enabled, Next, Walk, WalkSafe, DownRound, Asking;
    RunOfOne(k);
    if k.holder[l].Some? {
      var k0, p := Asking(k, l), k.prio[k.current];
      AskStep(k, l);
      FreeFacts(k);
      AskingKeeps(k, l);
      SafeWalks(k0, l, p);
      var walk := WalkIsRun(k0, l, p);
      var k1 := Walk(k0, l, p).value;
      RunBefore(k, Ask(l), walk, k1);
      RecheckStep(k0, k1, l);
      RunAfter([k] + walk, k, k1, Recheck);
      AcquiredForm(k, l);
      trace := [k] + walk + [Next(k1, Recheck)];
    } else {
      TakeStep(k, l);
      RunAfter([k], k, k, Acquire(l));
      trace := [k] + [Next(k, Acquire(l))];
    }
  }

  lemma FreeFacts(k: Kernel)
    requires Free(k)
    ensures k.current != k.idle && k.current in k.goal && k.goal[k.current] == NoGoal
  {
  }

  lemma TakeStep(k: Kernel, l: SemaId)
    requires Free(k) && MayAcquire(k, l) && k.holder[l].None?
    ensures Enabled(k, Acquire(l)) && Next(k, Acquire(l)) == Acquired(k, l)
  {
  }
}
