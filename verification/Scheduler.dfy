/**
 The scheduler, semaphores, locks and the alarm clock as code over updated
 fields (src/threads/thread.c, src/threads/synch.c, src/devices/timer.c): each
 method makes the step of the same name in the Scheduling module, keeps the
 invariant, and does what its callers rely on.
 */
module Scheduler {
  import opened ListOrder
  import opened Sequences
  import opened Bitmaps
  import opened Scheduling
  import opened SchedulingSteps
  import opened Donation
  import SchedulingRuns
  import opened SchedulingOrder

  class Threads {
    var current: Tid
    var idle: Tid
    var status: map<Tid, Status>
    var prio: map<Tid, int>
    var goal: map<Tid, Goal>
    var ready: seq<Tid>
    var value: map<SemaId, nat>
    var waiters: map<SemaId, seq<Tid>>
    var holder: map<SemaId, Option<Tid>>
    var ticks: int
    var wakeup: map<Tid, int>
    var sleeping: seq<Tid>

    ghost function State(): Kernel
      reads this
    {
      Kernel(current, idle, status, prio, goal, ready, value, waiters, holder, ticks, wakeup, sleeping)
    }

    method Schedule()
      modifies this
      ensures State() == Scheduled(old(State()))
    {
      var next := idle;
      if ready != [] {
        next := ready[0];
        ready := ready[1..];
      }
      current := next;
      status := status[next := Running];
    }

    method Block()
      modifies this
      ensures State() == Blocking(old(State()))
    {
      status := status[current := Blocked];
      Schedule();
    }

    method Unblock(t: Tid)
      requires t in status && status[t] == Blocked
      modifies this
      ensures State() == Unblocked(old(State()), t)
    {
      ready := InsertOrdered(Higher(prio), ready, t);
      status := status[t := Ready];
    }

    /** thread_yield: a thread of the highest priority runs next, and the caller
        goes on only if every ready thread has a lower one. */
    method Yield()
      requires Inv(State())
      modifies this
      ensures State() == Yielded(old(State())) && Inv(State()) && YieldedTo(old(State()), current)
      ensures SchedulingRuns.StepTo(old(State()), State())
    {
      hide Inv, Yielded, YieldedTo, SchedulingRuns.StepTo;
      YieldIsStep(State());
      YieldedKeeps(State());
      YieldPick(State());
      PutBack();
    }

    method PutBack()
      modifies this
      ensures State() == Yielded(old(State()))
    {
      if current != idle {
        ready := InsertOrdered(Higher(prio), ready, current);
      }
      status := status[current := Ready];
      Schedule();
    }

    /** specific_thread_set_priority, without the yield at its end: the ready
        threads are in order again, and equals have not overtaken each other. */
    method SetPriority(t: Tid, p: int)
      requires Inv(State()) && t in prio
      modifies this
      ensures State() == PrioritySet(old(State()), t, p) && Inv(State())
      ensures prio == old(prio)[t := p] && Queue(prio, old(ready), ready)
    {
      PrioritySetKeeps(State(), t, p);
      QueueSort(prio[t := p], ready);
      hide Inv, StableSort, Queue;
      prio := prio[t := p];
      if ready == [] {
        return;
      }
      ready := StableSort(Higher(prio), ready);
    }

    /** One turn of sema_down: with no unit left the thread is the last waiter
        and another one runs; otherwise it takes a unit, and the lock if it is one. */
    method SemaDown(s: SemaId)
      requires Inv(State()) && s in value && s in waiters && MayLookAt(State(), s)
      modifies this
      ensures State() == DownRound(old(State()), s) && Inv(State()) && TurnDone(old(State()), State(), s)
      ensures s !in old(holder) || old(holder)[s].None? || old(AwaitsSome(State(), current)) ==>
        SchedulingRuns.StepTo(old(State()), State())
    {
      hide Inv, DownRound, TurnDone, SchedulingRuns.StepTo;
      TurnIsStep(State(), s);
      DownRoundKeeps(State(), s);
      TurnEffect(State(), s);
      Turn(s);
    }

    method Turn(s: SemaId)
      requires s in value && s in waiters
      modifies this
      ensures State() == DownRound(old(State()), s)
    {
      if value[s] == 0 {
        waiters := waiters[s := waiters[s] + [current]];
        goal := goal[current := Down(s)];
        Block();
      } else {
        value := value[s := value[s] - 1];
        goal := goal[current := NoGoal];
        if s in holder {
          holder := holder[s := Some(current)];
        }
      }
    }

    /** sema_up: the longest waiter of the highest priority is ready, and there is
        one unit more. */
    method SemaUp(s: SemaId)
      requires Inv(State()) && s in value && s in waiters && s !in holder
      modifies this
      ensures State() == Upped(old(State()), s) && Inv(State()) && UnitGiven(old(State()), State(), s)
      ensures SchedulingRuns.StepTo(old(State()), State())
    {
      hide Inv, Upped, UnitGiven, SchedulingRuns.StepTo;
      UpIsStep(State(), s);
      UppedKeeps(State(), s);
      UpEffect(State(), s);
      Up(s);
    }

    method Up(s: SemaId)
      requires Inv(State()) && s in value && s in waiters
      modifies this
      ensures State() == Upped(old(State()), s)
    {
      hide Inv, StableSort, InsertOrdered;
      if waiters[s] != [] {
        FirstWaiter(State(), s);
        if |waiters[s]| > 1 {
          waiters := waiters[s := StableSort(Higher(prio), waiters[s])];
        }
        var t := waiters[s][0];
        waiters := waiters[s := waiters[s][1..]];
        Unblock(t);
      }
      value := value[s := value[s] + 1];
    }

    /** lock_release: the lock has no holder, and its longest waiter of the highest
        priority is ready. */
    method LockRelease(l: SemaId)
      requires Inv(State()) && l in holder && holder[l] == Some(current)
      modifies this
      ensures State() == Released(old(State()), l) && Inv(State())
      ensures UnitGiven(old(State()), State(), l) && holder == old(holder)[l := None]
      ensures SchedulingRuns.StepTo(old(State()), State())
    {
      ghost var k := State();
      LockFacts(k, l);
      hide Inv, Upped, UnitGiven, SchedulingRuns.StepTo;
      ReleaseIsStep(k, l);
      ReleasedKeeps(k, l);
      ReleaseEffect(k, l);
      Up(l);
      holder := holder[l := None];
    }

    /** lock_priority_donate.  It comes to a lock without a holder, and `ok` is
        false, unless every lock on its way was held before.  Otherwise
        priorities only rise, only to `p`, the donee reaches it, and where only
        waiters of `l` were ahead of a holder no waiter is any more. */
    method LockPriorityDonate(l: SemaId, p: int) returns (ok: bool)
      requires Inv(State())
      modifies this
      ensures ok <==> WalkSafe(old(State()), l, p)
      ensures ok ==> Some(State()) == Walk(old(State()), l, p) && Inv(State()) && RaisedTo(old(State()), State(), l, p)
      ensures AllHeld(old(State())) && Held(old(State()), l) && EdgesOkBut(old(State()), l, p) ==>
        ok && AllHeld(State()) && AllEdgesOk(State())
    {
      ghost var k := State();
      WalkCompletesIff(k, l, p);
      if AllHeld(k) && Held(k, l) && EdgesOkBut(k, l, p) {
        DonationRepairs(k, l, p);
      }
      ok := Donate(l, p);
      if ok {
        DonationKeeps(k, l, p);
        DonationRaises(k, l, p);
      }
    }

    /** The recursion. */
    method Donate(l: SemaId, p: int) returns (ok: bool)
      requires Inv(State())
      modifies this
      ensures ok <==> Walk(old(State()), l, p).Some?
      ensures ok ==> State() == Walk(old(State()), l, p).value
      decreases |Below(prio, p)|
    {
      hide Inv;
      if l !in holder || holder[l].None? || holder[l].value !in prio {
        return false;
      }
      var h := holder[l].value;
      ok := true;
      if prio[h] < p {
        BelowShrinks(prio, p, h);
        SetPriority(h, p);
        if h in goal && goal[h] != NoGoal && goal[h].sema in holder {
          ok := Donate(goal[h].sema, p);
        }
      }
    }

    /** lock_acquire, to where the thread blocks or holds the lock; it goes wrong
        exactly when the donation meets a lock without a holder. */
    method LockAcquire(l: SemaId) returns (ok: bool)
      requires Inv(State()) && l in holder && holder[l] != Some(current) && current != idle && goal[current] == NoGoal
      modifies this
      ensures ok <==> MayAcquire(old(State()), l)
      ensures ok ==> State() == Acquired(old(State()), l) && Inv(State()) && AcquireDone(old(State()), State(), l)
    {
      hide Inv, AcquireDone, WalkSafe, Walk, DownRound, RaisedTo, AllHeld, EdgesOkBut, TurnDone, SchedulingRuns.StepTo;
      ghost var k := State();
      LockFacts(k, l);
      if MayAcquire(k, l) {
        AcquireEffect(k, l);
      }
      ok := true;
      if holder[l] != None {
        AskingKeeps(k, l);
        goal := goal[current := Wants(l)];
        ok := LockPriorityDonate(l, prio[current]);
        if !ok {
          return;
        }
      }
      SemaDown(l);
    }

    /** timer_sleep: the thread sleeps, blocked, until its tick, and the thread to be
        picked runs. */
    method TimerSleep(n: int)
      requires Inv(State()) && current != idle && goal[current] == NoGoal && -0x8000_0000 <= ticks + n < 0x8000_0000
      modifies this
      ensures State() == Slept(old(State()), n) && Inv(State()) && SleptDone(old(State()), State(), n)
      ensures SchedulingRuns.StepTo(old(State()), State())
    {
      hide Inv, InsertOrdered, SleptDone, SchedulingRuns.StepTo;
      SleepIsStep(State(), n);
      SleptKeeps(State(), n);
      SleepEffect(State(), n);
      wakeup := wakeup[current := ticks + n];
      sleeping := InsertOrdered(Earlier(wakeup), sleeping, current);
      Block();
    }

    /** thread_exit, its last lines: the thread is dying, and the thread to be picked runs. */
    method Exit()
      requires Inv(State()) && current != idle && goal[current] == NoGoal
      modifies this
      ensures State() == Exited(old(State())) && Inv(State()) && GaveUp(old(State()), State(), Dying)
      ensures SchedulingRuns.StepTo(old(State()), State())
    {
      hide Inv, GaveUp, SchedulingRuns.StepTo;
      ExitIsStep(State());
      ExitedKeeps(State());
      ScheduledGaveUp(State(), Dying, State().(status := status[current := Dying]));
      status := status[current := Dying];
      Schedule();
    }

    /** timer_interrupt: exactly the sleepers whose tick has come are ready. */
    method TimerInterrupt()
      requires Inv(State())
      modifies this
      ensures State() == Ticked(old(State())) && Inv(State()) && Alarm(old(State()), State())
      ensures SchedulingRuns.StepTo(old(State()), State())
    {
      hide Inv, Alarm, SchedulingRuns.StepTo;
      TickIsStep(State());
      AlarmEffect(State());
      TickedKeeps(State());
      TickKeeps(State());
      ghost var done := Ticked(State());
      ticks := ticks + 1;
      while sleeping != [] && Key(wakeup, sleeping[0]) <= ticks
        invariant Inv(State()) && WokenUp(State()) == done
        decreases |sleeping|
      {
        var t := sleeping[0];
        WakeOneKeeps(State());
        FirstSleeper(State());
        sleeping := sleeping[1..];
        Unblock(t);
      }
    }
  }

  lemma IsStep(k: Kernel, step: SchedulingRuns.Step)
    requires SchedulingRuns.Enabled(k, step)
    ensures SchedulingRuns.StepTo(k, SchedulingRuns.Next(k, step))
  {
  }

  lemma YieldIsStep(k: Kernel)
    ensures SchedulingRuns.StepTo(k, Yielded(k))
  {
    IsStep(k, SchedulingRuns.Step.Yield);
  }

  lemma UpIsStep(k: Kernel, s: SemaId)
    requires s in k.value && s in k.waiters && s !in k.holder
    ensures SchedulingRuns.StepTo(k, Upped(k, s))
  {
    IsStep(k, SchedulingRuns.Step.SemaUp(s));
  }

  lemma ReleaseIsStep(k: Kernel, l: SemaId)
    requires l in k.value && l in k.waiters && l in k.holder && k.holder[l] == Some(k.current)
    ensures SchedulingRuns.StepTo(k, Released(k, l))
  {
    IsStep(k, SchedulingRuns.Step.Release(l));
  }

  lemma SleepIsStep(k: Kernel, n: int)
    requires Inv(k) && k.current != k.idle && k.goal[k.current] == NoGoal
    requires -0x8000_0000 <= k.ticks + n < 0x8000_0000
    ensures SchedulingRuns.StepTo(k, Slept(k, n))
  {
    IsStep(k, SchedulingRuns.Step.Sleep(n));
  }

  lemma ExitIsStep(k: Kernel)
    requires Inv(k) && k.current != k.idle && k.goal[k.current] == NoGoal
    ensures SchedulingRuns.StepTo(k, Exited(k))
  {
    IsStep(k, SchedulingRuns.Step.Exit);
  }

  lemma TickIsStep(k: Kernel)
    ensures SchedulingRuns.StepTo(k, Ticked(k))
  {
    IsStep(k, SchedulingRuns.Step.Tick);
  }

  /** A turn of sema_down is a step of its own, unless it is on a lock that was not asked for. */
  lemma TurnIsStep(k: Kernel, s: SemaId)
    requires Inv(k) && s in k.value && s in k.waiters && MayLookAt(k, s)
    requires k.current in k.goal
    ensures s !in k.holder || k.holder[s].None? || AwaitsSome(k, k.current) ==> SchedulingRuns.StepTo(k, DownRound(k, s))
  {
    hide DownRound;
    if k.goal[k.current] != NoGoal {
      IsStep(k, SchedulingRuns.Step.Recheck);
    } else if s !in k.holder {
      IsStep(k, SchedulingRuns.Step.SemaDown(s));
    } else if k.holder[s].None? {
      IsStep(k, SchedulingRuns.Step.Acquire(s));
    }
  }

  lemma LockFacts(k: Kernel, l: SemaId)
    requires Inv(k) && l in k.holder
    ensures l in k.value && l in k.waiters && k.current in k.prio && k.current in k.goal
  {
  }

  /** What a turn of sema_down means to its caller: with no unit left it is the last
      waiter, blocked, and the thread to be picked runs; otherwise it has taken
      a unit, and the lock if it is one. */
  ghost predicate TurnDone(k: Kernel, k': Kernel, s: SemaId)
    requires s in k.value && s in k.waiters
  {
    if k.value[s] == 0 then
      && k'.waiters == k.waiters[s := k.waiters[s] + [k.current]] && k'.current != k.current
      && k'.goal == k.goal[k.current := Down(s)] && GaveUp(k, k', Blocked)
      && k' == k.(waiters := k'.waiters, goal := k'.goal, current := k'.current, ready := k'.ready, status := k'.status)
    else
      && k'.value == k.value[s := k.value[s] - 1] && k'.goal == k.goal[k.current := NoGoal]
      && k'.holder == (if s in k.holder then k.holder[s := Some(k.current)] else k.holder)
      && k' == k.(value := k'.value, goal := k'.goal, holder := k'.holder)
  }

  lemma TurnEffect(k: Kernel, s: SemaId)
    requires Inv(k) && s in k.value && s in k.waiters && MayLookAt(k, s)
    ensures TurnDone(k, DownRound(k, s), s)
  {
    if k.value[s] == 0 {
      OneList(k, k.current);
      var k1 := k.(waiters := k.waiters[s := k.waiters[s] + [k.current]], goal := k.goal[k.current := Down(s)],
                   status := k.status[k.current := Blocked]);
      ScheduledGaveUp(k, Blocked, k1);
      hide Inv, GaveUp;
    }
  }

  /** lock_acquire: a free lock is the caller's; otherwise the caller's priority has gone to
      exactly the threads on the way, and it waits behind the others. */
  ghost predicate AcquireDone(k: Kernel, k': Kernel, l: SemaId)
    requires l in k.holder && k.current in k.prio
  {
    && l in k.value && l in k.waiters
    && if k.holder[l].None? then k'.holder == k.holder[l := Some(k.current)] && k'.current == k.current && k'.prio == k.prio
       else
         && RaisedTo(Asking(k, l), k', l, k.prio[k.current])
         && k'.waiters == k.waiters[l := k.waiters[l] + [k.current]] && k'.holder == k.holder
         && k.current in k'.status && k'.status[k.current] == Blocked && k'.current != k.current
         && forall t :: t in k.ready ==> Key(k'.prio, t) <= Key(k'.prio, k'.current)
  }

  lemma AcquireEffect(k: Kernel, l: SemaId)
    requires Inv(k) && MayAcquire(k, l) && k.current != k.idle && k.goal[k.current] == NoGoal
    ensures AcquireDone(k, Acquired(k, l), l)
  {
    hide Inv, Walk, RaisedTo, WalkSafe, DownRound, GaveUp;
    AskingKeeps(k, l);
    var k0, p := Asking(k, l), k.prio[k.current];
    if k.holder[l].Some? {
      SafeWalks(k0, l, p);
      DonationRaises(k0, l, p);
      DonationKeeps(k0, l, p);
      WalkReady(k0, l, p);
      var k1 := Walk(k0, l, p).value;
      LockValue(k1, l);
      TurnEffect(k1, l);
      var k' := DownRound(k1, l);
      PickedHighest(k1, k');
      SameRaised(k0, k1, k', l, p);
    } else {
      LockValue(k, l);
      TurnEffect(k, l);
    }
  }

  lemma PickedHighest(k: Kernel, k': Kernel)
    requires GaveUp(k, k', Blocked) && k'.current != k.current
    ensures k.current in k'.status && k'.status[k.current] == Blocked
    ensures forall t :: t in k.ready ==> Key(k.prio, t) <= Key(k.prio, k'.current)
  {
  }

  lemma SameRaised(k: Kernel, k1: Kernel, k2: Kernel, l: SemaId, p: int)
    requires RaisedTo(k, k1, l, p) && k2.prio == k1.prio
    ensures RaisedTo(k, k2, l, p)
  {
    hide OnWay;
  }

  lemma LockValue(k: Kernel, l: SemaId)
    requires Inv(k) && l in k.holder
    ensures l in k.value && l in k.waiters && k.value[l] == if k.holder[l].Some? then 0 else 1
    ensures k.current in k.goal && k.current in k.status
  {
  }

  /** The walk re-sorts the ready list and leaves it its threads. */
  lemma {:induction false} WalkReady(k: Kernel, l: SemaId, p: int)
    requires Inv(k) && Walk(k, l, p).Some?
    ensures forall t :: t in k.ready ==> t in Walk(k, l, p).value.ready
    decreases |Below(k.prio, p)|
  {
    var h := k.holder[l].value;
    if k.prio[h] < p {
      BelowShrinks(k.prio, p, h);
      PrioritySetKeeps(k, h, p);
      QueueSort(k.prio[h := p], k.ready);
      hide Inv, StableSort;
      if AwaitsSome(k, h) {
        WalkReady(PrioritySet(k, h, p), k.goal[h].sema, p);
      }
    }
  }

  lemma ReleaseEffect(k: Kernel, l: SemaId)
    requires Inv(k) && l in k.holder && l in k.value && l in k.waiters
    ensures UnitGiven(k, Released(k, l), l) && Released(k, l).holder == k.holder[l := None]
  {
    hide Inv, Upped, Queue, Before, Sorted;
    UpEffect(k, l);
    UpHolder(k, l);
    if k.waiters[l] != [] {
      var t :| t in k.waiters[l] && WokenBy(k, Upped(k, l), l, t);
      assert WokenBy(k, Released(k, l), l, t);
    }
  }

  lemma UpHolder(k: Kernel, s: SemaId)
    requires s in k.value && s in k.waiters
    ensures Upped(k, s).holder == k.holder
  {
    hide StableSort, InsertOrdered;
  }

  /** The thread sleeps until `n` ticks from now, behind the sleepers that are not later. */
  ghost predicate SleptDone(k: Kernel, k': Kernel, n: int)
  {
    && k'.wakeup == k.wakeup[k.current := k.ticks + n] && (forall t :: t in k'.sleeping <==> t in k.sleeping || t == k.current)
    && GaveUp(k, k', Blocked)
    && k' == k.(wakeup := k'.wakeup, sleeping := k'.sleeping, current := k'.current, ready := k'.ready, status := k'.status)
  }

  lemma SleepEffect(k: Kernel, n: int)
    requires Inv(k) && k.current != k.idle && k.goal[k.current] == NoGoal
    ensures SleptDone(k, Slept(k, n), n)
  {
    hide Inv, GaveUp, InsertOrdered, Earlier;
    var wakeup := k.wakeup[k.current := k.ticks + n];
    Awake(k);
    InsertedMembers(Earlier(wakeup), k.sleeping, k.current);
    var k1 := k.(wakeup := wakeup, sleeping := InsertOrdered(Earlier(wakeup), k.sleeping, k.current),
                 status := k.status[k.current := Blocked]);
    ScheduledGaveUp(k, Blocked, k1);
  }

  lemma Awake(k: Kernel)
    requires Inv(k)
    ensures Distinct(k.sleeping) && k.current !in k.sleeping
  {
  }

  lemma FirstWaiter(k: Kernel, s: SemaId)
    requires Inv(k) && s in k.waiters && k.waiters[s] != []
    ensures var w := Lined(k, s); w != [] && w[0] in k.status && k.status[w[0]] == Blocked
  {
    WaitersDistinct(k, s);
    LinedMembers(k, s);
  }

  lemma FirstSleeper(k: Kernel)
    requires Inv(k) && k.sleeping != []
    ensures k.sleeping[0] in k.status && k.status[k.sleeping[0]] == Blocked
  {
    SleepPop(k.status, k.goal, k.wakeup, k.sleeping, k.idle);
  }
}
