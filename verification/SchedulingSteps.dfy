/**
 Every step of threads, semaphores, locks and the alarm clock keeps the
 invariant of the Scheduling module.
 */
module SchedulingSteps {
  import opened ListOrder
  import opened Sequences
  import opened Bitmaps
  import opened Scheduling

  // ----- one thread changes its status -----

  /** Neither before nor after is the thread blocked, or it has no semaphore on its mind. */
  ghost predicate Harmless(status: map<Tid, Status>, goal: map<Tid, Goal>, t: Tid, b: Status)
  {
    t in status && t in goal && (goal[t] == NoGoal || (status[t] != Blocked && b != Blocked && b != Dying))
  }

  lemma WaitStatus(status: map<Tid, Status>, goal: map<Tid, Goal>, waiters: map<SemaId, seq<Tid>>, t: Tid, b: Status)
    requires WaitOk(status, goal, waiters) && Harmless(status, goal, t, b)
    ensures WaitOk(status[t := b], goal, waiters)
  {
  }

  lemma SleepStatus(status: map<Tid, Status>, goal: map<Tid, Goal>, wakeup: map<Tid, int>, sleeping: seq<Tid>,
                    idle: Tid, t: Tid, b: Status)
    requires SleepOk(status, goal, wakeup, sleeping, idle) && t !in sleeping
    ensures SleepOk(status[t := b], goal, wakeup, sleeping, idle)
  {
  }

  lemma NotAsleep(status: map<Tid, Status>, goal: map<Tid, Goal>, wakeup: map<Tid, int>, sleeping: seq<Tid>, idle: Tid,
                  t: Tid)
    requires SleepOk(status, goal, wakeup, sleeping, idle) && t in status && (status[t] != Blocked || t == idle)
    ensures t !in sleeping
  {
  }

  lemma LostStatus(status: map<Tid, Status>, goal: map<Tid, Goal>, sleeping: seq<Tid>, idle: Tid, t: Tid, b: Status)
    requires NoneLost(status, goal, sleeping, idle)
    requires (b != Blocked || t == idle || t in sleeping || (t in goal && goal[t].Down?))
    ensures NoneLost(status[t := b], goal, sleeping, idle)
  {
  }

  lemma WakeupsStatus(status: map<Tid, Status>, goal: map<Tid, Goal>, waiters: map<SemaId, seq<Tid>>,
                      value: map<SemaId, nat>, t: Tid, b: Status)
    requires Wakeups(status, goal, waiters, value) && Harmless(status, goal, t, b)
    ensures Wakeups(status[t := b], goal, waiters, value)
  {
    forall s | s in waiters ensures Pending(status[t := b], goal, s) == Pending(status, goal, s) {
    }
  }

  /** All of that together, and the domains. */
  lemma StatusKeeps(k: Kernel, t: Tid, b: Status)
    requires Base(k) && Harmless(k.status, k.goal, t, b) && t !in k.sleeping && (b == Blocked ==> t == k.idle)
    ensures var status := k.status[t := b];
      && SleepOk(status, k.goal, k.wakeup, k.sleeping, k.idle) && WaitOk(status, k.goal, k.waiters)
      && NoneLost(status, k.goal, k.sleeping, k.idle) && Wakeups(status, k.goal, k.waiters, k.value)
      && status.Keys == k.status.Keys
  {
    hide SleepOk, WaitOk, NoneLost, Wakeups, ReadyOk, Locks;
    SleepStatus(k.status, k.goal, k.wakeup, k.sleeping, k.idle, t, b);
    WaitStatus(k.status, k.goal, k.waiters, t, b);
    LostStatus(k.status, k.goal, k.sleeping, k.idle, t, b);
    WakeupsStatus(k.status, k.goal, k.waiters, k.value, t, b);
  }

  // ----- the ready list -----

  lemma SortedTail(less: Less<Tid>, s: seq<Tid>)
    requires s != [] && Sorted(less, s) && Distinct(s)
    ensures Sorted(less, s[1..]) && Distinct(s[1..]) && s[0] !in s[1..]
    ensures forall t :: t in s <==> t == s[0] || t in s[1..]
  {
    assert s == [s[0]] + s[1..];
    assert forall i :: 0 <= i < |s| - 1 ==> s[1..][i] == s[i + 1];
  }

  lemma ReadyMember(status: map<Tid, Status>, prio: map<Tid, int>, ready: seq<Tid>, idle: Tid, t: Tid)
    requires ReadyOk(status, prio, ready, idle) && t in ready
    ensures t in status && status[t] == Ready && t != idle
  {
  }

  lemma ReadyPop(status: map<Tid, Status>, prio: map<Tid, int>, ready: seq<Tid>, idle: Tid)
    requires ReadyOk(status, prio, ready, idle)
    ensures ready != [] ==> ready[0] in status && status[ready[0]] == Ready && ready[0] != idle
    ensures ready != [] ==> ReadyOk(status[ready[0] := Running], prio, ready[1..], idle)
    ensures ready == [] ==> ReadyOk(status[idle := Running], prio, [], idle)
  {
    if ready != [] {
      ReadyMember(status, prio, ready, idle, ready[0]);
      SortedTail(Higher(prio), ready);
    }
  }

  lemma ReadyPush(status: map<Tid, Status>, prio: map<Tid, int>, ready: seq<Tid>, idle: Tid, t: Tid)
    requires ReadyOk(status, prio, ready, idle) && t in status && status[t] != Ready && t != idle
    ensures ReadyOk(status[t := Ready], prio, InsertOrdered(Higher(prio), ready, t), idle)
  {
    KeysOrder(prio, ready + [t]);
    assert t !in ready;
    InsertThread(Higher(prio), ready, t);
  }

  lemma ReadyStatus(status: map<Tid, Status>, prio: map<Tid, int>, ready: seq<Tid>, idle: Tid, t: Tid, b: Status)
    requires ReadyOk(status, prio, ready, idle) && t in status && status[t] != Ready && (b != Ready || t == idle)
    ensures ReadyOk(status[t := b], prio, ready, idle)
  {
  }

  // ----- switching threads -----

  lemma ScheduledKeeps(k: Kernel)
    requires Base(k) && NoneRunning(k)
    ensures Inv(Scheduled(k))
  {
    var k' := Scheduled(k);
    var next := k'.current;
    hide SleepOk, WaitOk, NoneLost, Wakeups, ReadyOk, Locks;
    ReadyPop(k.status, k.prio, k.ready, k.idle);
    NotAsleep(k.status, k.goal, k.wakeup, k.sleeping, k.idle, next);
    StatusKeeps(k, next, Running);
  }

  lemma YieldedKeeps(k: Kernel)
    requires Inv(k)
    ensures Inv(Yielded(k))
  {
    var c := k.current;
    var r := if c != k.idle then InsertOrdered(Higher(k.prio), k.ready, c) else k.ready;
    var k1 := k.(ready := r, status := k.status[c := Ready]);
    hide SleepOk, WaitOk, NoneLost, Wakeups, ReadyOk, Locks, InsertOrdered;
    NotAsleep(k.status, k.goal, k.wakeup, k.sleeping, k.idle, c);
    StatusKeeps(k, c, Ready);
    if c != k.idle {
      ReadyPush(k.status, k.prio, k.ready, k.idle, c);
    } else {
      ReadyStatus(k.status, k.prio, k.ready, k.idle, c, Ready);
    }
    ScheduledKeeps(k1);
  }

  /** thread_block by the idle thread, the only one that blocks without being on a list. */
  lemma IdleBlocksKeeps(k: Kernel)
    requires Inv(k) && k.current == k.idle
    ensures Inv(Blocking(k))
  {
    var k1 := k.(status := k.status[k.idle := Blocked]);
    hide SleepOk, WaitOk, NoneLost, Wakeups, ReadyOk, Locks;
    NotAsleep(k.status, k.goal, k.wakeup, k.sleeping, k.idle, k.idle);
    StatusKeeps(k, k.idle, Blocked);
    ReadyStatus(k.status, k.prio, k.ready, k.idle, k.idle, Blocked);
    ScheduledKeeps(k1);
  }

  function Exited(k: Kernel): Kernel
  {
    Scheduled(k.(status := k.status[k.current := Dying]))
  }

  lemma ExitedKeeps(k: Kernel)
    requires Inv(k) && k.current != k.idle && k.goal[k.current] == NoGoal
    ensures Inv(Exited(k))
  {
    var c := k.current;
    hide SleepOk, WaitOk, NoneLost, Wakeups, ReadyOk, Locks;
    NotAsleep(k.status, k.goal, k.wakeup, k.sleeping, k.idle, c);
    StatusKeeps(k, c, Dying);
    ReadyStatus(k.status, k.prio, k.ready, k.idle, c, Dying);
    ScheduledKeeps(k.(status := k.status[c := Dying]));
  }

  // ----- the alarm clock -----

  lemma SleepPop(status: map<Tid, Status>, goal: map<Tid, Goal>, wakeup: map<Tid, int>, sleeping: seq<Tid>, idle: Tid)
    requires SleepOk(status, goal, wakeup, sleeping, idle) && sleeping != []
    ensures var t := sleeping[0]; t in status && status[t] == Blocked && t != idle && t in goal && goal[t] == NoGoal
    ensures SleepOk(status[sleeping[0] := Ready], goal, wakeup, sleeping[1..], idle)
  {
    SortedTail(Earlier(wakeup), sleeping);
  }

  lemma LostPop(status: map<Tid, Status>, goal: map<Tid, Goal>, sleeping: seq<Tid>, idle: Tid)
    requires NoneLost(status, goal, sleeping, idle) && sleeping != []
    ensures NoneLost(status[sleeping[0] := Ready], goal, sleeping[1..], idle)
  {
    assert sleeping == [sleeping[0]] + sleeping[1..];
  }

  /** timer_interrupt wakes the first sleeper. */
  lemma WakeOneKeeps(k: Kernel)
    requires Inv(k) && k.sleeping != []
    ensures Inv(Unblocked(k.(sleeping := k.sleeping[1..]), k.sleeping[0]))
  {
    var t := k.sleeping[0];
    hide SleepOk, WaitOk, NoneLost, Wakeups, ReadyOk, Locks, InsertOrdered;
    SleepPop(k.status, k.goal, k.wakeup, k.sleeping, k.idle);
    LostPop(k.status, k.goal, k.sleeping, k.idle);
    WaitStatus(k.status, k.goal, k.waiters, t, Ready);
    WakeupsStatus(k.status, k.goal, k.waiters, k.value, t, Ready);
    ReadyPush(k.status, k.prio, k.ready, k.idle, t);
  }

  lemma {:induction false} WokenUpKeeps(k: Kernel)
    requires Inv(k)
    ensures Inv(WokenUp(k))
    decreases |k.sleeping|
  {
    hide Inv, Unblocked;
    if !(k.sleeping == [] || Key(k.wakeup, k.sleeping[0]) > k.ticks) {
      WakeOneKeeps(k);
      UnblockedSleeping(k.(sleeping := k.sleeping[1..]), k.sleeping[0]);
      WokenUpKeeps(Unblocked(k.(sleeping := k.sleeping[1..]), k.sleeping[0]));
    }
  }

  lemma UnblockedSleeping(k: Kernel, t: Tid)
    ensures Unblocked(k, t).sleeping == k.sleeping
  {
  }

  lemma TickKeeps(k: Kernel)
    requires Inv(k)
    ensures Inv(k.(ticks := k.ticks + 1))
  {
    hide ReadyOk, SleepOk, WaitOk, NoneLost, Wakeups, Locks;
  }

  lemma TickedKeeps(k: Kernel)
    requires Inv(k)
    ensures Inv(Ticked(k))
  {
    hide Inv, WokenUp;
    TickKeeps(k);
    WokenUpKeeps(k.(ticks := k.ticks + 1));
  }

  lemma SleepPush(status: map<Tid, Status>, goal: map<Tid, Goal>, wakeup: map<Tid, int>, sleeping: seq<Tid>, idle: Tid,
                  t: Tid, tick: int)
    requires SleepOk(status, goal, wakeup, sleeping, idle) && t !in sleeping && t in status && t in goal
    requires goal[t] == NoGoal && t != idle
    ensures var w := wakeup[t := tick]; SleepOk(status[t := Blocked], goal, w, InsertOrdered(Earlier(w), sleeping, t), idle)
    ensures forall x :: x in InsertOrdered(Earlier(wakeup[t := tick]), sleeping, t) <==> x in sleeping || x == t
  {
    var w := wakeup[t := tick];
    assert Sorted(Earlier(w), sleeping);
    KeysOrder(w, sleeping + [t]);
    InsertThread(Earlier(w), sleeping, t);
  }

  lemma SleptKeeps(k: Kernel, n: int)
    requires Inv(k) && k.current != k.idle && k.goal[k.current] == NoGoal
    ensures Inv(Slept(k, n))
  {
    var c := k.current;
    var wakeup := k.wakeup[c := k.ticks + n];
    var sleeping := InsertOrdered(Earlier(wakeup), k.sleeping, c);
    var k1 := k.(wakeup := wakeup, sleeping := sleeping, status := k.status[c := Blocked]);
    hide SleepOk, WaitOk, Wakeups, ReadyOk, Locks, InsertOrdered;
    NotAsleep(k.status, k.goal, k.wakeup, k.sleeping, k.idle, c);
    SleepPush(k.status, k.goal, k.wakeup, k.sleeping, k.idle, c, k.ticks + n);
    WaitStatus(k.status, k.goal, k.waiters, c, Blocked);
    WakeupsStatus(k.status, k.goal, k.waiters, k.value, c, Blocked);
    ReadyStatus(k.status, k.prio, k.ready, k.idle, c, Blocked);
    assert NoneLost(k1.status, k1.goal, k1.sleeping, k1.idle);
    ScheduledKeeps(k1);
  }

  // ----- sema_up and lock_release -----

  /** The waiters in the order sema_up takes them. */
  function Lined(k: Kernel, s: SemaId): seq<Tid>
    requires s in k.waiters
  {
    if |k.waiters[s]| > 1 then StableSort(Higher(k.prio), k.waiters[s]) else k.waiters[s]
  }

  lemma LinedMembers(k: Kernel, s: SemaId)
    requires s in k.waiters && Distinct(k.waiters[s]) && k.waiters[s] != []
    ensures var w := Lined(k, s);
      && w != [] && Distinct(w[1..]) && w[0] !in w[1..] && w[0] in k.waiters[s]
      && forall t :: t in k.waiters[s] <==> t == w[0] || t in w[1..]
  {
    KeysOrder(k.prio, k.waiters[s]);
    var w := Lined(k, s);
    if |k.waiters[s]| > 1 {
      SortThreads(Higher(k.prio), k.waiters[s]);
    }
    assert k.waiters[s][0] in w;
    SortedTail(Higher(k.prio), w);
  }

  lemma WaitPop(status: map<Tid, Status>, goal: map<Tid, Goal>, waiters: map<SemaId, seq<Tid>>, s: SemaId, t: Tid,
                rest: seq<Tid>)
    requires WaitOk(status, goal, waiters) && s in waiters && t in waiters[s] && Distinct(rest)
    requires t !in rest && forall x :: x in waiters[s] <==> x == t || x in rest
    ensures WaitOk(status[t := Ready], goal, waiters[s := rest])
    ensures t in status && status[t] == Blocked && t in goal && goal[t] == Down(s)
  {
  }

  /** A woken waiter is on its way to the new unit of the value. */
  lemma WakeupsPop(status: map<Tid, Status>, goal: map<Tid, Goal>, waiters: map<SemaId, seq<Tid>>,
                   value: map<SemaId, nat>,
                   s: SemaId, t: Tid, rest: seq<Tid>)
    requires Wakeups(status, goal, waiters, value) && s in waiters && s in value && waiters[s] != []
    requires t in status && status[t] == Blocked && t in goal && goal[t] == Down(s)
    ensures Wakeups(status[t := Ready], goal, waiters[s := rest], value[s := value[s] + 1])
  {
    var status' := status[t := Ready];
    forall s' | s' != s ensures Pending(status', goal, s') == Pending(status, goal, s') {
    }
    assert Pending(status', goal, s) == Pending(status, goal, s) + {t};
  }

  /** Everything but the lock discipline. */
  ghost predicate UpDone(k: Kernel, k': Kernel, s: SemaId)
    requires s in k.value
  {
    && Keys(k') && OnCpu(k') && ReadyOk(k'.status, k'.prio, k'.ready, k'.idle)
    && SleepOk(k'.status, k'.goal, k'.wakeup, k'.sleeping, k'.idle) && WaitOk(k'.status, k'.goal, k'.waiters)
    && NoneLost(k'.status, k'.goal, k'.sleeping, k'.idle) && Wakeups(k'.status, k'.goal, k'.waiters, k'.value)
    && k'.value == k.value[s := k.value[s] + 1] && k'.holder == k.holder && k'.current == k.current
  }

  lemma UppedBase(k: Kernel, s: SemaId)
    requires Inv(k) && s in k.waiters && s in k.value
    ensures UpDone(k, Upped(k, s), s)
  {
    hide SleepOk, WaitOk, NoneLost, Wakeups, ReadyOk, Locks, InsertOrdered, StableSort;
    if k.waiters[s] == [] {
      WakeupsNone(k.status, k.goal, k.waiters, k.value, s);
    } else {
      WaitersDistinct(k, s);
      LinedMembers(k, s);
      UppedWakes(k, s, Lined(k, s));
    }
  }

  lemma WakeupsNone(status: map<Tid, Status>, goal: map<Tid, Goal>, waiters: map<SemaId, seq<Tid>>,
                    value: map<SemaId, nat>, s: SemaId)
    requires Wakeups(status, goal, waiters, value) && s in value && s in waiters && waiters[s] == []
    ensures Wakeups(status, goal, waiters, value[s := value[s] + 1])
  {
  }

  lemma UppedWakes(k: Kernel, s: SemaId, w: seq<Tid>)
    requires Inv(k) && s in k.waiters && s in k.value && k.waiters[s] != [] && w == Lined(k, s)
    requires w != [] && Distinct(w[1..]) && w[0] !in w[1..]
    requires forall t :: t in k.waiters[s] <==> t == w[0] || t in w[1..]
    ensures UpDone(k, Upped(k, s), s)
  {
    hide SleepOk, WaitOk, NoneLost, Wakeups, ReadyOk, Locks, InsertOrdered, StableSort, Distinct;
    var t := w[0];
    WaitPop(k.status, k.goal, k.waiters, s, t, w[1..]);
    WakeupsPop(k.status, k.goal, k.waiters, k.value, s, t, w[1..]);
    AwakeNotAsleep(k, t);
    SleepStatus(k.status, k.goal, k.wakeup, k.sleeping, k.idle, t, Ready);
    LostStatus(k.status, k.goal, k.sleeping, k.idle, t, Ready);
    ReadyPush(k.status, k.prio, k.ready, k.idle, t);
  }

  lemma WaitersDistinct(k: Kernel, s: SemaId)
    requires WaitOk(k.status, k.goal, k.waiters) && s in k.waiters
    ensures Distinct(k.waiters[s])
  {
  }

  lemma AwakeNotAsleep(k: Kernel, t: Tid)
    requires SleepOk(k.status, k.goal, k.wakeup, k.sleeping, k.idle) && t in k.goal && k.goal[t] != NoGoal
    ensures t !in k.sleeping
  {
  }

  lemma UppedKeeps(k: Kernel, s: SemaId)
    requires Inv(k) && s in k.value && s in k.waiters && s !in k.holder
    ensures Inv(Upped(k, s))
  {
    UppedBase(k, s);
    hide SleepOk, WaitOk, NoneLost, Wakeups, ReadyOk, Upped;
  }

  /** lock_release by the holder. */
  function Released(k: Kernel, l: SemaId): Kernel
    requires l in k.value && l in k.waiters && l in k.holder
  {
    var k1 := Upped(k, l);
    k1.(holder := k1.holder[l := None])
  }

  lemma ReleasedKeeps(k: Kernel, l: SemaId)
    requires Inv(k) && l in k.holder && k.holder[l] == Some(k.current)
    ensures Inv(Released(k, l))
  {
    UppedBase(k, l);
    hide SleepOk, WaitOk, NoneLost, Wakeups, ReadyOk, Upped;
  }

  // ----- sema_down and lock_acquire -----

  /** The running thread has no other semaphore on its mind. */
  ghost predicate MayLookAt(k: Kernel, s: SemaId)
  {
    k.current in k.goal && k.goal[k.current] in {NoGoal, Wants(s), Down(s)} && k.current != k.idle
  }

  lemma DownRoundKeeps(k: Kernel, s: SemaId)
    requires Inv(k) && s in k.value && s in k.waiters && MayLookAt(k, s)
    ensures Inv(DownRound(k, s))
  {
    if k.value[s] == 0 {
      DownBlocks(k, s);
    } else {
      DownTakes(k, s);
    }
  }

  lemma WaitPush(status: map<Tid, Status>, goal: map<Tid, Goal>, waiters: map<SemaId, seq<Tid>>, s: SemaId, t: Tid)
    requires WaitOk(status, goal, waiters) && s in waiters && t in status && t in goal && status[t] == Running
    ensures WaitOk(status[t := Blocked], goal[t := Down(s)], waiters[s := waiters[s] + [t]])
  {
    assert t !in waiters[s];
  }

  lemma WakeupsPush(status: map<Tid, Status>, goal: map<Tid, Goal>, waiters: map<SemaId, seq<Tid>>,
                    value: map<SemaId, nat>, s: SemaId, t: Tid)
    requires Wakeups(status, goal, waiters, value) && s in waiters && s in value && value[s] == 0
    requires t in goal && goal[t] in {NoGoal, Wants(s), Down(s)}
    ensures Wakeups(status[t := Blocked], goal[t := Down(s)], waiters[s := waiters[s] + [t]], value)
  {
    forall s' | s' != s ensures Pending(status[t := Blocked], goal[t := Down(s)], s') == Pending(status, goal, s') {
    }
  }

  lemma SleepGoal(status: map<Tid, Status>, goal: map<Tid, Goal>, wakeup: map<Tid, int>, sleeping: seq<Tid>, idle: Tid,
                  t: Tid, b: Status, g: Goal)
    requires SleepOk(status, goal, wakeup, sleeping, idle) && t !in sleeping
    ensures SleepOk(status[t := b], goal[t := g], wakeup, sleeping, idle)
  {
  }

  lemma DownBlocks(k: Kernel, s: SemaId)
    requires Inv(k) && s in k.value && s in k.waiters && MayLookAt(k, s) && k.value[s] == 0
    ensures Inv(DownRound(k, s))
  {
    var c := k.current;
    var k1 := k.(waiters := k.waiters[s := k.waiters[s] + [c]], goal := k.goal[c := Down(s)], status := k.status[c := Blocked]);
    hide SleepOk, WaitOk, Wakeups, ReadyOk, Locks;
    NotAsleep(k.status, k.goal, k.wakeup, k.sleeping, k.idle, c);
    WaitPush(k.status, k.goal, k.waiters, s, c);
    WakeupsPush(k.status, k.goal, k.waiters, k.value, s, c);
    SleepGoal(k.status, k.goal, k.wakeup, k.sleeping, k.idle, c, Blocked, Down(s));
    ReadyStatus(k.status, k.prio, k.ready, k.idle, c, Blocked);
    assert NoneLost(k1.status, k1.goal, k1.sleeping, k1.idle);
    ScheduledKeeps(k1);
  }

  lemma WaitDone(status: map<Tid, Status>, goal: map<Tid, Goal>, waiters: map<SemaId, seq<Tid>>, t: Tid)
    requires WaitOk(status, goal, waiters) && t in status && status[t] == Running
    ensures WaitOk(status, goal[t := NoGoal], waiters)
  {
  }

  lemma WakeupsTake(status: map<Tid, Status>, goal: map<Tid, Goal>, waiters: map<SemaId, seq<Tid>>,
                    value: map<SemaId, nat>, s: SemaId, t: Tid)
    requires Wakeups(status, goal, waiters, value) && s in value && value[s] > 0
    requires t in goal && goal[t] in {NoGoal, Wants(s), Down(s)}
    ensures Wakeups(status, goal[t := NoGoal], waiters, value[s := value[s] - 1])
  {
    var goal' := goal[t := NoGoal];
    forall s' | s' != s ensures Pending(status, goal', s') == Pending(status, goal, s') {
    }
    var p, p' := Pending(status, goal, s), Pending(status, goal', s);
    assert p' == p - {t};
    assert |p| <= |p'| + 1;
  }

  lemma DownTakes(k: Kernel, s: SemaId)
    requires Inv(k) && s in k.value && s in k.waiters && MayLookAt(k, s) && k.value[s] > 0
    ensures Inv(DownRound(k, s))
  {
    var c, k1 := k.current, DownRound(k, s);
    hide SleepOk, WaitOk, Wakeups, ReadyOk;
    NotAsleep(k.status, k.goal, k.wakeup, k.sleeping, k.idle, c);
    WaitDone(k.status, k.goal, k.waiters, c);
    WakeupsTake(k.status, k.goal, k.waiters, k.value, s, c);
    SleepGoal(k.status, k.goal, k.wakeup, k.sleeping, k.idle, c, Running, NoGoal);
    assert k.status[c := Running] == k.status;
    assert NoneLost(k1.status, k1.goal, k1.sleeping, k1.idle);
  }

  // ----- priorities and new threads -----

  lemma PrioritySetKeeps(k: Kernel, t: Tid, p: int)
    requires Inv(k) && t in k.prio
    ensures Inv(PrioritySet(k, t, p))
  {
    hide SleepOk, WaitOk, NoneLost, Wakeups, Locks, StableSort;
    var prio := k.prio[t := p];
    KeysOrder(prio, k.ready);
    SortThreads(Higher(prio), k.ready);
    assert k.prio.Keys == prio.Keys;
  }

  /** thread_create: a new thread starts out blocked and is unblocked at once. */
  function Created(k: Kernel, t: Tid, p: int): Kernel
  {
    Unblocked(k.(status := k.status[t := Blocked], prio := k.prio[t := p], goal := k.goal[t := NoGoal]), t)
  }

  lemma WaitNew(status: map<Tid, Status>, goal: map<Tid, Goal>, waiters: map<SemaId, seq<Tid>>, t: Tid)
    requires WaitOk(status, goal, waiters) && t !in status
    ensures WaitOk(status[t := Ready], goal[t := NoGoal], waiters)
  {
  }

  lemma WakeupsNew(status: map<Tid, Status>, goal: map<Tid, Goal>, waiters: map<SemaId, seq<Tid>>,
                   value: map<SemaId, nat>, t: Tid)
    requires Wakeups(status, goal, waiters, value) && t !in status
    ensures Wakeups(status[t := Ready], goal[t := NoGoal], waiters, value)
  {
    forall s ensures Pending(status[t := Ready], goal[t := NoGoal], s) == Pending(status, goal, s) {
    }
  }

  lemma ReadyNew(status: map<Tid, Status>, prio: map<Tid, int>, ready: seq<Tid>, idle: Tid, t: Tid, p: int)
    requires ReadyOk(status, prio, ready, idle) && t !in status && t != idle
    ensures ReadyOk(status[t := Ready], prio[t := p], InsertOrdered(Higher(prio[t := p]), ready, t), idle)
  {
    var prio' := prio[t := p];
    assert Sorted(Higher(prio'), ready);
    KeysOrder(prio', ready + [t]);
    InsertThread(Higher(prio'), ready, t);
  }

  lemma CreatedKeeps(k: Kernel, t: Tid, p: int)
    requires Inv(k) && t !in k.status
    ensures Inv(Created(k, t, p))
  {
    var k' := Created(k, t, p);
    hide SleepOk, WaitOk, Wakeups, ReadyOk, Locks, InsertOrdered;
    assert k.status[t := Blocked][t := Ready] == k.status[t := Ready];
    SleepersKnown(k);
    SleepGoal(k.status, k.goal, k.wakeup, k.sleeping, k.idle, t, Ready, NoGoal);
    WaitNew(k.status, k.goal, k.waiters, t);
    WakeupsNew(k.status, k.goal, k.waiters, k.value, t);
    ReadyNew(k.status, k.prio, k.ready, k.idle, t, p);
    assert NoneLost(k'.status, k'.goal, k'.sleeping, k'.idle);
  }

  lemma SleepersKnown(k: Kernel)
    requires SleepOk(k.status, k.goal, k.wakeup, k.sleeping, k.idle)
    ensures forall t :: t in k.sleeping ==> t in k.status
  {
  }
}
