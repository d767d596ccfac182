/**
 In which order threads run and wake: first in first out among equals on the
 ready list, the pick of schedule and of sema_up, and the alarm clock
 (src/threads/thread.c, src/threads/synch.c, src/devices/timer.c).
 */
module SchedulingOrder {
  import opened ListOrder
  import opened Sequences
  import opened Scheduling
  import opened SchedulingSteps
  import opened SchedulingRuns

  ghost predicate Before(s: seq<Tid>, a: Tid, b: Tid)
  {
    exists i, j :: 0 <= i < j < |s| && s[i] == a && s[j] == b
  }

  // ----- what happens to a queue -----

  /** Threads of equal priority that stay keep their order, and a newcomer
      comes after them. */
  ghost predicate Queue(prio: map<Tid, int>, r: seq<Tid>, r': seq<Tid>)
  {
    && (forall a, b :: Before(r, a, b) && a in r' && b in r' && Key(prio, a) == Key(prio, b) ==> Before(r', a, b))
    && (forall a, b :: a in r && a in r' && b !in r && b in r' && Key(prio, a) == Key(prio, b) ==> Before(r', a, b))
  }

  lemma QueueSame(prio: map<Tid, int>, r: seq<Tid>)
    ensures Queue(prio, r, r)
  {
  }

  lemma InsertedBefore(less: Less<Tid>, s: seq<Tid>, x: Tid, a: Tid, b: Tid)
    requires Before(s, a, b)
    ensures Before(InsertOrdered(less, s, x), a, b)
  {
    var n := InsertPos(less, s, x);
    var r := InsertOrdered(less, s, x);
    var i, j :| 0 <= i < j < |s| && s[i] == a && s[j] == b;
    var i', j' := if i < n then i else i + 1, if j < n then j else j + 1;
    assert r[i'] == a && r[j'] == b;
  }

  lemma NewcomerLast(prio: map<Tid, int>, s: seq<Tid>, x: Tid, a: Tid)
    requires Sorted(Higher(prio), s) && a in s && Key(prio, a) == Key(prio, x)
    ensures Before(InsertOrdered(Higher(prio), s, x), a, x)
  {
    var less := Higher(prio);
    var n, r := InsertPos(less, s, x), InsertOrdered(less, s, x);
    var i :| 0 <= i < |s| && s[i] == a;
    assert i < n;
    assert r[i] == a && r[n] == x;
  }

  lemma QueuePush(prio: map<Tid, int>, r: seq<Tid>, x: Tid)
    requires Sorted(Higher(prio), r)
    ensures Queue(prio, r, InsertOrdered(Higher(prio), r, x))
  {
    var r' := InsertOrdered(Higher(prio), r, x);
    forall a, b | Before(r, a, b) ensures Before(r', a, b) {
      InsertedBefore(Higher(prio), r, x, a, b);
    }
    forall a, b | a in r && b !in r && b in r' && Key(prio, a) == Key(prio, b) ensures Before(r', a, b) {
      OnlyNewcomer(Higher(prio), r, x, b);
      NewcomerLast(prio, r, x, a);
    }
  }

  lemma OnlyNewcomer(less: Less<Tid>, s: seq<Tid>, x: Tid, b: Tid)
    requires b in InsertOrdered(less, s, x) && b !in s
    ensures b == x
  {
  }

  lemma QueuePop(prio: map<Tid, int>, r: seq<Tid>)
    requires r != [] && Distinct(r)
    ensures Queue(prio, r, r[1..]) && forall x :: x in r[1..] ==> x in r
  {
    var r' := r[1..];
    forall a, b | Before(r, a, b) && a in r' && b in r' ensures Before(r', a, b) {
      var i, j :| 0 <= i < j < |r| && r[i] == a && r[j] == b;
      assert i > 0;
      assert r'[i - 1] == a && r'[j - 1] == b;
    }
  }

  lemma {:induction false} SortedBefore(prio: map<Tid, int>, s: seq<Tid>, a: Tid, b: Tid)
    requires Before(s, a, b) && Key(prio, a) == Key(prio, b)
    ensures Before(StableSort(Higher(prio), s), a, b)
  {
    var less := Higher(prio);
    var p, x := s[..|s| - 1], s[|s| - 1];
    SortedPrefix(prio, p);
    assert StableSort(less, s) == InsertOrdered(less, StableSort(less, p), x);
    hide StableSort, InsertOrdered, Sorted, Higher;
    if Before(p, a, b) {
      SortedBefore(prio, p, a, b);
      InsertedBefore(less, StableSort(less, p), x, a, b);
    } else {
      LastIsNew(s, a, b);
      NewcomerLast(prio, StableSort(less, p), x, a);
    }
  }

  lemma SortedPrefix(prio: map<Tid, int>, p: seq<Tid>)
    ensures Sorted(Higher(prio), StableSort(Higher(prio), p)) && forall t :: t in p ==> t in StableSort(Higher(prio), p)
  {
    KeysOrder(prio, p);
    StableSortCorrect(Higher(prio), p);
    SeqMembers(p, StableSort(Higher(prio), p));
  }

  lemma LastIsNew(s: seq<Tid>, a: Tid, b: Tid)
    requires Before(s, a, b) && !Before(s[..|s| - 1], a, b)
    ensures b == s[|s| - 1] && a in s[..|s| - 1]
  {
    var p := s[..|s| - 1];
    var i, j :| 0 <= i < j < |s| && s[i] == a && s[j] == b;
    assert p[i] == a;
    assert j < |p| ==> p[j] == b;
  }

  lemma QueueSort(prio: map<Tid, int>, r: seq<Tid>)
    ensures Queue(prio, r, StableSort(Higher(prio), r)) && forall x :: x in StableSort(Higher(prio), r) <==> x in r
  {
    var r' := StableSort(Higher(prio), r);
    KeysOrder(prio, r);
    StableSortCorrect(Higher(prio), r);
    SeqMembers(r, r');
    forall a, b | Before(r, a, b) && Key(prio, a) == Key(prio, b) ensures Before(r', a, b) {
      SortedBefore(prio, r, a, b);
    }
  }

  lemma QueueTrans(prio: map<Tid, int>, r: seq<Tid>, r1: seq<Tid>, r2: seq<Tid>)
    requires Queue(prio, r, r1) && Queue(prio, r1, r2) && forall x :: x in r && x in r2 ==> x in r1
    ensures Queue(prio, r, r2)
  {
    forall a, b | Before(r, a, b) && a in r2 && b in r2 && Key(prio, a) == Key(prio, b) ensures Before(r2, a, b) {
      assert a in r && b in r;
      assert Before(r1, a, b);
    }
  }

  // ----- first in, first out, over every run -----

  lemma ScheduledQueues(k: Kernel)
    requires Distinct(k.ready)
    ensures Queue(k.prio, k.ready, Scheduled(k).ready) && forall x :: x in Scheduled(k).ready ==> x in k.ready
  {
    if k.ready == [] {
      QueueSame(k.prio, k.ready);
    } else {
      QueuePop(k.prio, k.ready);
    }
  }

  lemma YieldedQueues(k: Kernel)
    requires Inv(k)
    ensures Queue(k.prio, k.ready, Yielded(k).ready)
  {
    if k.current == k.idle {
      ScheduledQueues(k.(status := k.status[k.current := Ready]));
    } else {
      var r := InsertOrdered(Higher(k.prio), k.ready, k.current);
      QueuePush(k.prio, k.ready, k.current);
      InsertedMembers(Higher(k.prio), k.ready, k.current);
      ScheduledQueues(k.(ready := r, status := k.status[k.current := Ready]));
      hide Queue, InsertOrdered;
      QueueTrans(k.prio, k.ready, r, Yielded(k).ready);
    }
  }

  lemma UppedQueues(k: Kernel, s: SemaId)
    requires Sorted(Higher(k.prio), k.ready) && s in k.value && s in k.waiters
    ensures Queue(k.prio, k.ready, Upped(k, s).ready) && Upped(k, s).prio == k.prio
  {
    var w := Lined(k, s);
    if w == [] {
      QueueSame(k.prio, k.ready);
    } else {
      QueuePush(k.prio, k.ready, w[0]);
    }
  }

  lemma {:induction false} WokenUpQueues(k: Kernel)
    requires Inv(k)
    ensures Queue(k.prio, k.ready, WokenUp(k).ready) && (forall x :: x in k.ready ==> x in WokenUp(k).ready)
    ensures WokenUp(k).prio == k.prio
    decreases |k.sleeping|
  {
    if k.sleeping == [] || Key(k.wakeup, k.sleeping[0]) > k.ticks {
      QueueSame(k.prio, k.ready);
    } else {
      var t := k.sleeping[0];
      var k1 := Unblocked(k.(sleeping := k.sleeping[1..]), t);
      WakeOneKeeps(k);
      QueuePush(k.prio, k.ready, t);
      OneList(k, t);
      InsertedMembers(Higher(k.prio), k.ready, t);
      hide Queue, InsertOrdered, Inv;
      WokenUpQueues(k1);
      QueueTrans(k.prio, k.ready, k1.ready, WokenUp(k1).ready);
    }
  }

  lemma CreatedQueues(k: Kernel, t: Tid, p: int)
    requires Inv(k) && t !in k.status
    ensures Queue(Created(k, t, p).prio, k.ready, Created(k, t, p).ready)
  {
    var prio' := k.prio[t := p];
    assert Sorted(Higher(prio'), k.ready);
    QueuePush(prio', k.ready, t);
  }

  /** thread_create: the new thread is ready, with its priority, and nothing else changes;
      among equals it is last. */
  lemma CreatedDone(k: Kernel, t: Tid, p: int)
    requires Inv(k) && t !in k.status
    ensures var k' := Created(k, t, p);
      && k'.status == k.status[t := Ready] && k'.prio == k.prio[t := p] && k'.goal == k.goal[t := NoGoal]
      && (forall x :: x in k'.ready <==> x in k.ready || x == t) && Queue(k'.prio, k.ready, k'.ready)
      && k' == k.(status := k'.status, prio := k'.prio, goal := k'.goal, ready := k'.ready)
  {
    CreatedQueues(k, t, p);
    ReadyFacts(k);
    StrangerNotReady(k, t);
    hide Inv, Queue, InsertOrdered;
    InsertedMembers(Higher(k.prio[t := p]), k.ready, t);
    assert k.status[t := Blocked][t := Ready] == k.status[t := Ready];
  }

  lemma StrangerNotReady(k: Kernel, t: Tid)
    requires Inv(k) && t !in k.status
    ensures t !in k.ready
  {
  }

  lemma DownQueues(k: Kernel, s: SemaId)
    requires Distinct(k.ready) && s in k.value && s in k.waiters
    ensures Queue(k.prio, k.ready, DownRound(k, s).ready) && DownRound(k, s).prio == k.prio
    ensures forall x :: x in DownRound(k, s).ready ==> x in k.ready
  {
    if k.value[s] == 0 {
      ScheduledQueues(k.(waiters := k.waiters[s := k.waiters[s] + [k.current]], goal := k.goal[k.current := Down(s)],
                         status := k.status[k.current := Blocked]));
    } else {
      QueueSame(k.prio, k.ready);
    }
  }

  /** Every step keeps the order of equals on the ready list. */
  lemma NextQueues(k: Kernel, step: Step)
    requires Inv(k) && Enabled(k, step)
    ensures Queue(Next(k, step).prio, k.ready, Next(k, step).ready)
  {
    hide Inv, Queue, InsertOrdered, StableSort;
    ReadyFacts(k);
    match step
    case Yield => YieldedQueues(k);
    case IdleBlock => ScheduledQueues(k.(status := k.status[k.current := Blocked]));
    case Exit => ScheduledQueues(k.(status := k.status[k.current := Dying]));
    case Create(t, p) => CreatedQueues(k, t, p);
    case SemaDown(s) => DownQueues(k, s);
    case SemaUp(s) => UppedQueues(k, s);
    case Acquire(l) => DownQueues(k, l);
    case Ask(_) => QueueSame(k.prio, k.ready);
    case Raise(l, p) => PriorityQueues(k, k.holder[l].value, p);
    case Release(l) => UppedQueues(k, l);
    case Recheck => DownQueues(k, k.goal[k.current].sema);
    case SetPriority(p) => PriorityQueues(k, k.current, p);
    case Sleep(n) => SleptQueues(k, n);
    case Tick => TickedQueues(k);
  }

  lemma PriorityQueues(k: Kernel, t: Tid, p: int)
    ensures Queue(PrioritySet(k, t, p).prio, k.ready, PrioritySet(k, t, p).ready)
  {
    QueueSort(k.prio[t := p], k.ready);
  }

  lemma ReadyFacts(k: Kernel)
    requires Inv(k)
    ensures Distinct(k.ready) && Sorted(Higher(k.prio), k.ready)
  {
  }

  lemma SleptQueues(k: Kernel, n: int)
    requires Distinct(k.ready)
    ensures Queue(k.prio, k.ready, Slept(k, n).ready)
  {
    var wakeup := k.wakeup[k.current := k.ticks + n];
    ScheduledQueues(k.(wakeup := wakeup, sleeping := InsertOrdered(Earlier(wakeup), k.sleeping, k.current),
                       status := k.status[k.current := Blocked]));
  }

  lemma TickedQueues(k: Kernel)
    requires Inv(k)
    ensures Queue(k.prio, k.ready, Ticked(k).ready) && Ticked(k).prio == k.prio
  {
    hide Inv, Queue, WokenUp;
    TickKeeps(k);
    WokenUpQueues(k.(ticks := k.ticks + 1));
  }

  /** Of two threads that stay ready at the same priority, the one in front stays in front. */
  lemma {:induction false} FirstInFirstOut(trace: seq<Kernel>, n: nat, a: Tid, b: Tid, p: int)
    requires Run(trace) && n < |trace| && Before(trace[0].ready, a, b)
    requires forall i :: 0 <= i <= n ==>
      a in trace[i].ready && b in trace[i].ready && Key(trace[i].prio, a) == p == Key(trace[i].prio, b)
    ensures Before(trace[n].ready, a, b)
  {
    if n > 0 {
      FirstInFirstOut(trace, n - 1, a, b, p);
      RunKeeps(trace, n - 1);
      assert StepTo(trace[n - 1], trace[n]);
      var step :| Enabled(trace[n - 1], step) && trace[n] == Next(trace[n - 1], step);
      hide Inv, Next, Enabled, StepTo;
      NextQueues(trace[n - 1], step);
    }
  }

  // ----- who is picked -----

  /** next_thread_to_run: the idle thread exactly when no thread is ready; otherwise, of
      the ready threads with the highest priority, the one that has waited longest. */
  ghost predicate Picks(k: Kernel, next: Tid)
  {
    && (next == k.idle <==> k.ready == [])
    && (k.ready != [] ==>
        next in k.ready && forall t :: t in k.ready && t != next ==>
          Key(k.prio, t) < Key(k.prio, next) || (Key(k.prio, t) == Key(k.prio, next) && Before(k.ready, next, t)))
  }

  /** Whatever the thread that gives up the CPU has become. */
  lemma SchedulePick(k: Kernel)
    requires Sorted(Higher(k.prio), k.ready) && k.idle !in k.ready
    ensures Picks(k, Scheduled(k).current)
  {
    if k.ready != [] {
      var first := k.ready[0];
      assert first in k.ready;
      forall t | t in k.ready && t != first
        ensures Key(k.prio, t) <= Key(k.prio, first) && Before(k.ready, first, t)
      {
        var j :| 0 <= j < |k.ready| && k.ready[j] == t;
        assert !Higher(k.prio)(k.ready[j], k.ready[0]);
      }
    }
  }

  /** The running thread is in state `st` now, the thread to be picked runs, and the other
      ready threads stay as they were. */
  ghost predicate GaveUp(k: Kernel, k': Kernel, st: Status)
  {
    && Picks(k, k'.current) && k'.status == k.status[k.current := st][k'.current := Running]
    && k.ready == if k.ready == [] then k'.ready else [k'.current] + k'.ready
  }

  lemma ScheduledGaveUp(k: Kernel, st: Status, k1: Kernel)
    requires Inv(k) && k1.status == k.status[k.current := st]
    requires k1.ready == k.ready && k1.prio == k.prio && k1.idle == k.idle
    ensures GaveUp(k, Scheduled(k1), st)
  {
    ReadyOrder(k);
    SchedulePick(k1);
    SamePicks(k, k1, Scheduled(k1).current);
  }

  lemma ReadyOrder(k: Kernel)
    requires Inv(k)
    ensures Sorted(Higher(k.prio), k.ready) && k.idle !in k.ready && k.current !in k.ready && Distinct(k.ready)
  {
  }

  /** Picks depends on the ready list, the priorities and the idle thread alone. */
  lemma SamePicks(k: Kernel, k': Kernel, next: Tid)
    requires k'.ready == k.ready && k'.prio == k.prio && k'.idle == k.idle && Picks(k', next)
    ensures Picks(k, next)
  {
  }

  lemma YieldPicks(k: Kernel)
    requires Inv(k) && Yielded(k).current != k.current
    ensures Picks(k, Yielded(k).current)
  {
    ReadyOrder(k);
    hide Inv;
    if k.current == k.idle {
      var k1 := k.(status := k.status[k.current := Ready]);
      SchedulePick(k1);
      SamePicks(k, k1, Yielded(k).current);
    } else {
      var r := InsertOrdered(Higher(k.prio), k.ready, k.current);
      InsertedForm(Higher(k.prio), k.ready, k.current);
      assert r[0] == k.ready[0];
      SchedulePick(k);
    }
  }

  /** Each time another thread gets the CPU, it is the one to be picked. */
  lemma NextPicks(k: Kernel, step: Step)
    requires Inv(k) && Enabled(k, step) && Next(k, step).current != k.current
    ensures Picks(k, Next(k, step).current)
  {
    ReadyOrder(k);
    hide Inv, Picks, StableSort, InsertOrdered, WokenUp, Sorted, DownRound, Upped, Yielded;
    SchedulePick(k);
    match step
    case Yield => YieldPicks(k);
    case Tick => TickedCurrent(k);
    case SemaDown(s) => DownCurrent(k, s);
    case Acquire(l) => DownCurrent(k, l);
    case Recheck => DownCurrent(k, k.goal[k.current].sema);
    case SemaUp(s) => UppedCurrent(k, s);
    case Release(l) => UppedCurrent(k, l);
    case _ =>
  }

  lemma DownCurrent(k: Kernel, s: SemaId)
    requires s in k.value && s in k.waiters
    ensures DownRound(k, s).current == if k.value[s] == 0 then Scheduled(k).current else k.current
  {
  }

  lemma UppedCurrent(k: Kernel, s: SemaId)
    requires s in k.value && s in k.waiters
    ensures Upped(k, s).current == k.current
  {
    hide StableSort, InsertOrdered;
  }

  lemma {:induction false} WokenCurrent(k: Kernel)
    ensures WokenUp(k).current == k.current
    decreases |k.sleeping|
  {
    if !(k.sleeping == [] || Key(k.wakeup, k.sleeping[0]) > k.ticks) {
      WokenCurrent(Unblocked(k.(sleeping := k.sleeping[1..]), k.sleeping[0]));
    }
  }

  lemma TickedCurrent(k: Kernel)
    ensures Ticked(k).current == k.current
  {
    WokenCurrent(k.(ticks := k.ticks + 1));
  }

  /** Over every run. */
  lemma EveryPick(trace: seq<Kernel>, n: nat)
    requires Run(trace) && n + 1 < |trace| && trace[n + 1].current != trace[n].current
    ensures Picks(trace[n], trace[n + 1].current)
  {
    RunKeeps(trace, n);
    assert StepTo(trace[n], trace[n + 1]);
    var step :| Enabled(trace[n], step) && trace[n + 1] == Next(trace[n], step);
    hide Inv, Next, Enabled;
    NextPicks(trace[n], step);
  }

  /** sema_up wakes one waiter: of those with the highest current priority, the
      one that has waited longest.  The others keep waiting. */
  lemma SemaUpPick(k: Kernel, s: SemaId)
    requires Inv(k) && s in k.waiters && s in k.value && k.waiters[s] != []
    ensures var w := Lined(k, s); var k' := Upped(k, s);
      && w != [] && w[0] in k.waiters[s] && w[0] in k'.ready && s in k'.waiters && w[0] !in k'.waiters[s]
      && (forall t :: t in k.waiters[s] <==> t == w[0] || t in k'.waiters[s])
      && (forall t :: t in k.waiters[s] && t != w[0] ==>
          Key(k.prio, t) < Key(k.prio, w[0]) || (Key(k.prio, t) == Key(k.prio, w[0]) && Before(k.waiters[s], w[0], t)))
  {
    WaitersDistinct(k, s);
    LinedMembers(k, s);
    var w := Lined(k, s);
    assert w[0] in Upped(k, s).ready by {
      InsertedForm(Higher(k.prio), k.ready, w[0]);
    }
    forall t | t in k.waiters[s] && t != w[0]
      ensures Key(k.prio, t) < Key(k.prio, w[0]) || (Key(k.prio, t) == Key(k.prio, w[0]) && Before(k.waiters[s], w[0], t))
    {
      LongestWaiter(k.prio, k.waiters[s], t);
    }
  }

  /** What is left of a semaphore's waiters is in the order in which it will be looked at:
      equals have not overtaken each other. */
  lemma WaitersStay(k: Kernel, s: SemaId)
    requires Inv(k) && s in k.waiters && s in k.value
    ensures s in Upped(k, s).waiters && Queue(k.prio, k.waiters[s], Upped(k, s).waiters[s])
  {
    var w := Lined(k, s);
    if k.waiters[s] == [] {
      QueueSame(k.prio, k.waiters[s]);
    } else {
      WaitersDistinct(k, s);
      LinedMembers(k, s);
      LinedQueue(k, s);
      QueuePop(k.prio, w);
      hide Queue, Inv;
      assert Upped(k, s).waiters[s] == w[1..];
      QueueTrans(k.prio, k.waiters[s], w, w[1..]);
    }
  }

  lemma LinedQueue(k: Kernel, s: SemaId)
    requires s in k.waiters
    ensures Queue(k.prio, k.waiters[s], Lined(k, s))
  {
    if |k.waiters[s]| > 1 {
      QueueSort(k.prio, k.waiters[s]);
    } else {
      QueueSame(k.prio, k.waiters[s]);
    }
  }

  /** Every step keeps the order of equals among the waiters of every semaphore, and a
      newcomer comes after them. */
  lemma NextWaiters(k: Kernel, step: Step, s: SemaId)
    requires Inv(k) && Enabled(k, step) && s in k.waiters
    ensures s in Next(k, step).waiters && Queue(Next(k, step).prio, k.waiters[s], Next(k, step).waiters[s])
  {
    hide Inv, Queue, StableSort, InsertOrdered, WokenUp, DownRound, Upped;
    match step
    case SemaDown(s') => DownWaiters(k, s', s);
    case Acquire(l) => DownWaiters(k, l, s);
    case Recheck => DownWaiters(k, k.goal[k.current].sema, s);
    case SemaUp(s') => UpWaiters(k, s', s);
    case Release(l) => UpWaiters(k, l, s);
    case Tick => WokenWaiters(k.(ticks := k.ticks + 1)); QueueSame(k.prio, k.waiters[s]);
    case _ => QueueSame(Next(k, step).prio, k.waiters[s]);
  }

  lemma DownWaiters(k: Kernel, s': SemaId, s: SemaId)
    requires s' in k.value && s' in k.waiters && s in k.waiters
    ensures s in DownRound(k, s').waiters && Queue(k.prio, k.waiters[s], DownRound(k, s').waiters[s])
    ensures DownRound(k, s').prio == k.prio
  {
    if k.value[s'] == 0 && s' == s {
      QueueAppend(k.prio, k.waiters[s], k.current);
    } else {
      QueueSame(k.prio, k.waiters[s]);
    }
  }

  lemma QueueAppend(prio: map<Tid, int>, r: seq<Tid>, x: Tid)
    ensures Queue(prio, r, r + [x])
  {
    var r' := r + [x];
    forall a, b | Before(r, a, b) ensures Before(r', a, b) {
      var i, j :| 0 <= i < j < |r| && r[i] == a && r[j] == b;
      assert r'[i] == a && r'[j] == b;
    }
    forall a, b | a in r && b !in r && b in r' ensures Before(r', a, b) {
      var i :| 0 <= i < |r| && r[i] == a;
      assert r'[i] == a && r'[|r|] == b;
    }
  }

  lemma UpWaiters(k: Kernel, s': SemaId, s: SemaId)
    requires Inv(k) && s' in k.value && s' in k.waiters && s in k.waiters
    ensures s in Upped(k, s').waiters && Queue(k.prio, k.waiters[s], Upped(k, s').waiters[s])
    ensures Upped(k, s').prio == k.prio
  {
    if s' == s {
      WaitersStay(k, s);
    } else {
      QueueSame(k.prio, k.waiters[s]);
    }
    hide Queue, StableSort, InsertOrdered, Inv;
  }

  lemma {:induction false} WokenWaiters(k: Kernel)
    ensures WokenUp(k).waiters == k.waiters && WokenUp(k).prio == k.prio && WokenUp(k).value == k.value
    decreases |k.sleeping|
  {
    if !(k.sleeping == [] || Key(k.wakeup, k.sleeping[0]) > k.ticks) {
      WokenWaiters(Unblocked(k.(sleeping := k.sleeping[1..]), k.sleeping[0]));
    }
  }

  /** Of two threads that go on waiting at the same priority, the one in front stays in front. */
  lemma {:induction false} WaitersFirstInFirstOut(trace: seq<Kernel>, n: nat, s: SemaId, a: Tid, b: Tid, p: int)
    requires Run(trace) && n < |trace| && s in trace[0].waiters && Before(trace[0].waiters[s], a, b)
    requires forall i :: 0 <= i <= n ==> WaitTogether(trace[i], s, a, b, p)
    ensures s in trace[n].waiters && Before(trace[n].waiters[s], a, b)
  {
    hide Inv, Next, Enabled, StepTo, WaitTogether;
    if n > 0 {
      WaitersFirstInFirstOut(trace, n - 1, s, a, b, p);
      RunKeeps(trace, n - 1);
      assert StepTo(trace[n - 1], trace[n]);
      var step := SomeStep(trace[n - 1], trace[n]);
      NextWaiters(trace[n - 1], step, s);
      StillBefore(trace[n - 1], trace[n], s, a, b, p);
    }
  }

  /** Both wait for `s`, at priority `p`. */
  ghost predicate WaitTogether(k: Kernel, s: SemaId, a: Tid, b: Tid, p: int)
  {
    s in k.waiters && a in k.waiters[s] && b in k.waiters[s] && Key(k.prio, a) == p == Key(k.prio, b)
  }

  lemma SomeStep(k: Kernel, k': Kernel) returns (step: Step)
    requires StepTo(k, k')
    ensures Enabled(k, step) && k' == Next(k, step)
  {
    step :| Enabled(k, step) && k' == Next(k, step);
  }

  lemma StillBefore(k: Kernel, k': Kernel, s: SemaId, a: Tid, b: Tid, p: int)
    requires WaitTogether(k, s, a, b, p) && WaitTogether(k', s, a, b, p) && Before(k.waiters[s], a, b)
    requires Queue(k'.prio, k.waiters[s], k'.waiters[s])
    ensures Before(k'.waiters[s], a, b)
  {
    hide Before;
  }

  /** sema_up: one unit more, and the first of the waiters, if any, is ready; the others
      wait on in the order of their priorities. */
  ghost predicate UnitGiven(k: Kernel, k': Kernel, s: SemaId)
  {
    && s in k.value && s in k.waiters && s in k'.waiters && k'.value == k.value[s := k.value[s] + 1]
    && k'.current == k.current && k'.prio == k.prio && k'.goal == k.goal
    && if k.waiters[s] == [] then k'.waiters == k.waiters && k'.ready == k.ready && k'.status == k.status
       else
         exists t :: t in k.waiters[s] && WokenBy(k, k', s, t)
  }

  ghost predicate WokenBy(k: Kernel, k': Kernel, s: SemaId, t: Tid)
  {
    && s in k.waiters && s in k'.waiters && k'.waiters == k.waiters[s := k'.waiters[s]]
    && (forall x :: x in k.waiters[s] && x != t ==>
        Key(k.prio, x) < Key(k.prio, t) || (Key(k.prio, x) == Key(k.prio, t) && Before(k.waiters[s], t, x)))
    && (forall x :: x in k.waiters[s] <==> x == t || x in k'.waiters[s]) && t !in k'.waiters[s]
    && Queue(k.prio, k.waiters[s], k'.waiters[s]) && Sorted(Higher(k.prio), k'.waiters[s])
    && k'.status == k.status[t := Ready] && forall x :: x in k'.ready <==> x in k.ready || x == t
  }

  lemma UpEffect(k: Kernel, s: SemaId)
    requires Inv(k) && s in k.value && s in k.waiters
    ensures UnitGiven(k, Upped(k, s), s)
  {
    hide Inv, Queue, StableSort, InsertOrdered, Before, Upped, Sorted, Distinct, Higher;
    if k.waiters[s] == [] {
      UppedNobody(k, s);
    } else {
      SemaUpPick(k, s);
      WaitersStay(k, s);
      var w := Lined(k, s);
      WaiterNotReady(k, w[0], s);
      LinedMembers(k, s);
      InsertedMembers(Higher(k.prio), k.ready, w[0]);
      LinedSorted(k, s);
      UppedFields(k, s);
      assert WokenBy(k, Upped(k, s), s, w[0]);
    }
  }

  lemma WaiterNotReady(k: Kernel, t: Tid, s: SemaId)
    requires Inv(k) && s in k.waiters && t in k.waiters[s]
    ensures t !in k.ready && Distinct(k.ready) && Distinct(k.waiters[s])
  {
  }

  lemma UppedNobody(k: Kernel, s: SemaId)
    requires s in k.value && s in k.waiters && k.waiters[s] == []
    ensures Upped(k, s) == k.(value := k.value[s := k.value[s] + 1])
  {
  }

  lemma UppedFields(k: Kernel, s: SemaId)
    requires s in k.value && s in k.waiters && k.waiters[s] != [] && Lined(k, s) != []
    ensures var w, k' := Lined(k, s), Upped(k, s);
      && k'.value == k.value[s := k.value[s] + 1] && k'.waiters == k.waiters[s := w[1..]]
      && k'.current == k.current && k'.prio == k.prio && k'.goal == k.goal
      && k'.status == k.status[w[0] := Ready] && k'.ready == InsertOrdered(Higher(k.prio), k.ready, w[0])
  {
    hide StableSort, InsertOrdered;
  }

  lemma LinedSorted(k: Kernel, s: SemaId)
    requires s in k.waiters && Distinct(k.waiters[s]) && k.waiters[s] != []
    ensures Lined(k, s) != [] && Sorted(Higher(k.prio), Lined(k, s)[1..])
  {
    if |k.waiters[s]| > 1 {
      KeysOrder(k.prio, k.waiters[s]);
      SortThreads(Higher(k.prio), k.waiters[s]);
    }
  }

  lemma LongestWaiter(prio: map<Tid, int>, s: seq<Tid>, t: Tid)
    requires Distinct(s) && t in s
    ensures var w := if |s| > 1 then StableSort(Higher(prio), s) else s;
      w != [] && (t == w[0] || Key(prio, t) < Key(prio, w[0]) || (Key(prio, t) == Key(prio, w[0]) && Before(s, w[0], t)))
  {
    if |s| > 1 {
      var w := StableSort(Higher(prio), s);
      KeysOrder(prio, s);
      SortThreads(Higher(prio), s);
      hide StableSort, Sorted, Distinct, Before;
      assert w[0] in w;
      FirstIsHighest(prio, w, t);
      if t != w[0] && Key(prio, t) == Key(prio, w[0]) {
        OneBeforeOther(s, t, w[0]);
        if Before(s, t, w[0]) {
          SortedBefore(prio, s, t, w[0]);
          NothingBeforeFirst(w, t);
        }
      }
    }
  }

  lemma FirstIsHighest(prio: map<Tid, int>, w: seq<Tid>, t: Tid)
    requires Sorted(Higher(prio), w) && t in w
    ensures Key(prio, t) <= Key(prio, w[0])
  {
    var i :| 0 <= i < |w| && w[i] == t;
    assert i > 0 ==> !Higher(prio)(w[i], w[0]);
  }

  lemma OneBeforeOther(s: seq<Tid>, a: Tid, b: Tid)
    requires a in s && b in s && a != b
    ensures Before(s, a, b) || Before(s, b, a)
  {
    var i, j :| 0 <= i < |s| && 0 <= j < |s| && s[i] == a && s[j] == b;
  }

  lemma NothingBeforeFirst(w: seq<Tid>, t: Tid)
    requires Distinct(w) && w != []
    ensures !Before(w, t, w[0])
  {
  }

  // ----- units are conserved over every run -----

  predicate Gives(step: Step, s: SemaId)
  {
    step == SemaUp(s) || step == Release(s)
  }

  predicate Takes(k: Kernel, step: Step, s: SemaId)
  {
    && s in k.value && k.value[s] > 0
    && (step == SemaDown(s) || step == Acquire(s) ||
        (step == Recheck && k.current in k.goal && k.goal[k.current] in {Wants(s), Down(s)}))
  }

  lemma NextValue(k: Kernel, step: Step, s: SemaId)
    requires Inv(k) && Enabled(k, step) && s in k.value
    ensures var k' := Next(k, step);
      s in k'.value && k'.value[s] == k.value[s] + (if Gives(step, s) then 1 else 0) - if Takes(k, step, s) then 1 else 0
  {
    hide Inv, StableSort, InsertOrdered, WokenUp, DownRound, Upped, Scheduled;
    match step
    case SemaDown(s') => DownValue(k, s', s);
    case Acquire(l) => DownValue(k, l, s);
    case Recheck => DownValue(k, k.goal[k.current].sema, s);
    case SemaUp(s') => UpValue(k, s', s);
    case Release(l) => UpValue(k, l, s);
    case Tick => WokenWaiters(k.(ticks := k.ticks + 1));
    case _ => PlainValue(k, step);
  }

  lemma DownValue(k: Kernel, s': SemaId, s: SemaId)
    requires s' in k.value && s' in k.waiters && s in k.value
    ensures s in DownRound(k, s').value
    ensures DownRound(k, s').value[s] == if s' == s && k.value[s] > 0 then k.value[s] - 1 else k.value[s]
  {
  }

  lemma UpValue(k: Kernel, s': SemaId, s: SemaId)
    requires s' in k.value && s' in k.waiters && s in k.value
    ensures s in Upped(k, s').value && Upped(k, s').value[s] == if s' == s then k.value[s] + 1 else k.value[s]
  {
    hide StableSort, InsertOrdered;
  }

  lemma PlainValue(k: Kernel, step: Step)
    requires Enabled(k, step)
    requires step.Yield? || step.IdleBlock? || step.Exit? || step.Create? || step.Ask? || step.Raise? ||
      step.SetPriority? || step.Sleep?
    ensures Next(k, step).value == k.value
  {
    hide StableSort, InsertOrdered;
  }

  /** What the value changed by, at each state of a run. */
  ghost function Balance(trace: seq<Kernel>, steps: seq<Step>, s: SemaId): int
    requires |trace| > |steps|
  {
    if steps == [] then 0
    else
      var n := |steps| - 1;
      Balance(trace[..n + 1], steps[..n], s)
      + (if Gives(steps[n], s) then 1 else 0) - if Takes(trace[n], steps[n], s) then 1 else 0
  }

  /** Over a run the value of a semaphore is what it was, plus the ups, less the downs
      that went through. */
  lemma {:induction false} UnitsConserved(trace: seq<Kernel>, steps: seq<Step>, s: SemaId)
    requires |trace| == |steps| + 1 && Inv(trace[0]) && s in trace[0].value
    requires forall i :: 0 <= i < |steps| ==> Enabled(trace[i], steps[i]) && trace[i + 1] == Next(trace[i], steps[i])
    ensures Inv(trace[|steps|]) && s in trace[|steps|].value
    ensures trace[|steps|].value[s] == trace[0].value[s] + Balance(trace, steps, s)
  {
    hide Inv, Next, Enabled;
    if steps != [] {
      var n := |steps| - 1;
      UnitsConserved(trace[..n + 1], steps[..n], s);
      NextKeeps(trace[n], steps[n]);
      NextValue(trace[n], steps[n], s);
    }
  }

  // ----- the alarm clock over every run -----

  /** One interrupt wakes exactly the sleepers whose tick has come. */
  lemma {:induction false} WakesExactly(k: Kernel, t: Tid)
    requires Inv(k) && t in k.sleeping
    ensures t in WokenUp(k).sleeping <==> Key(k.wakeup, t) > k.ticks
    ensures Key(k.wakeup, t) <= k.ticks ==> t in WokenUp(k).ready
    ensures WokenUp(k).wakeup == k.wakeup && WokenUp(k).ticks == k.ticks
    decreases |k.sleeping|
  {
    if k.sleeping == [] || Key(k.wakeup, k.sleeping[0]) > k.ticks {
      LaterSleepers(k, t);
    } else {
      var first := k.sleeping[0];
      var k1 := Unblocked(k.(sleeping := k.sleeping[1..]), first);
      WakeOneKeeps(k);
      assert k.sleeping == [first] + k.sleeping[1..];
      if t == first {
        WokenStays(k1, t);
      } else {
        hide Inv;
        WakesExactly(k1, t);
      }
    }
  }

  /** timer_interrupt: the clock goes on by one; exactly the sleepers whose tick has come
      are ready, and nothing else changes. */
  ghost predicate Alarm(k: Kernel, k': Kernel)
  {
    && k'.ticks == k.ticks + 1 && k'.current == k.current && k'.wakeup == k.wakeup
    && k'.waiters == k.waiters && k'.prio == k.prio && k'.value == k.value
    && (forall t :: t in k'.sleeping <==> t in k.sleeping && Key(k.wakeup, t) > k'.ticks)
    && (forall t :: t in k'.ready <==> t in k.ready || (t in k.sleeping && Key(k.wakeup, t) <= k'.ticks))
  }

  lemma AlarmEffect(k: Kernel)
    requires Inv(k)
    ensures Alarm(k, Ticked(k))
  {
    hide Inv, WokenUp;
    var k1 := k.(ticks := k.ticks + 1);
    TickKeeps(k);
    WokenWaiters(k1);
    WokenCurrent(k1);
    WokenClock(k1);
    forall t | t in k1.sleeping
      ensures t in WokenUp(k1).sleeping <==> Key(k.wakeup, t) > k1.ticks
      ensures Key(k.wakeup, t) <= k1.ticks ==> t in WokenUp(k1).ready
    {
      WakesExactly(k1, t);
    }
  }

  /** Whoever is ready afterwards was ready, or slept and does no more. */
  lemma {:induction false} WokenClock(k: Kernel)
    requires Inv(k)
    ensures WokenUp(k).ticks == k.ticks && WokenUp(k).wakeup == k.wakeup
    ensures forall t :: t in WokenUp(k).sleeping ==> t in k.sleeping
    ensures forall t :: t in k.ready ==> t in WokenUp(k).ready
    ensures forall t :: t in WokenUp(k).ready && t !in k.ready ==> t in k.sleeping && Key(k.wakeup, t) <= k.ticks
    decreases |k.sleeping|
  {
    if !(k.sleeping == [] || Key(k.wakeup, k.sleeping[0]) > k.ticks) {
      var t := k.sleeping[0];
      WakeOneKeeps(k);
      OneList(k, t);
      ReadyOrder(k);
      InsertedMembers(Higher(k.prio), k.ready, t);
      assert t in k.sleeping && forall x :: x in k.sleeping[1..] ==> x in k.sleeping;
      hide Inv, InsertOrdered;
      WokenClock(Unblocked(k.(sleeping := k.sleeping[1..]), t));
    }
  }

  lemma LaterSleepers(k: Kernel, t: Tid)
    requires Inv(k) && t in k.sleeping
    ensures Key(k.wakeup, t) >= Key(k.wakeup, k.sleeping[0])
  {
    var i :| 0 <= i < |k.sleeping| && k.sleeping[i] == t;
    if i > 0 {
      assert !Earlier(k.wakeup)(k.sleeping[i], k.sleeping[0]);
    }
  }

  /** A thread woken in an interrupt is not put back to sleep by it. */
  lemma {:induction false} WokenStays(k: Kernel, t: Tid)
    requires Inv(k) && t in k.status && k.status[t] == Ready && t != k.idle
    ensures t in WokenUp(k).ready && t !in WokenUp(k).sleeping && WokenUp(k).wakeup == k.wakeup
    ensures WokenUp(k).ticks == k.ticks
    decreases |k.sleeping|
  {
    OneList(k, t);
    if !(k.sleeping == [] || Key(k.wakeup, k.sleeping[0]) > k.ticks) {
      WakeOneKeeps(k);
      assert k.sleeping[0] in k.sleeping;
      WokenStays(Unblocked(k.(sleeping := k.sleeping[1..]), k.sleeping[0]), t);
    }
  }

  /** In one step a sleeper stays asleep, unless it is an interrupt at or past its tick. */
  lemma SleeperStep(k: Kernel, step: Step, t: Tid)
    requires Inv(k) && Enabled(k, step) && t in k.sleeping
    ensures var k' := Next(k, step);
      && k'.ticks == (if step.Tick? then k.ticks + 1 else k.ticks) && Key(k'.wakeup, t) == Key(k.wakeup, t)
      && (t in k'.sleeping <==> !(step.Tick? && Key(k.wakeup, t) <= k'.ticks))
      && (t !in k'.sleeping ==> t in k'.ready)
  {
    NotCurrent(k, t);
    TickKeeps(k);
    hide Inv, WokenUp, Next, Enabled;
    if step.Tick? {
      WakesExactly(k.(ticks := k.ticks + 1), t);
      TickNext(k);
    } else {
      AwakeStep(k, step, t);
    }
  }

  lemma TickNext(k: Kernel)
    ensures Enabled(k, Tick) && Next(k, Tick) == WokenUp(k.(ticks := k.ticks + 1))
  {
    hide WokenUp;
  }

  lemma NotCurrent(k: Kernel, t: Tid)
    requires Inv(k) && t in k.sleeping
    ensures t != k.current
  {
  }

  lemma AwakeStep(k: Kernel, step: Step, t: Tid)
    requires Inv(k) && Enabled(k, step) && !step.Tick? && t in k.sleeping && t != k.current
    ensures var k' := Next(k, step); k'.ticks == k.ticks && Key(k'.wakeup, t) == Key(k.wakeup, t) && t in k'.sleeping
  {
    hide Inv, StableSort, InsertOrdered, Higher, Earlier;
    match step
    case Sleep(n) =>
      StillMember(Earlier(k.wakeup[k.current := k.ticks + n]), k.sleeping, k.current, t);
      SleptClock(k, n);
    case _ => PlainClock(k, step);
  }

  lemma SleptClock(k: Kernel, n: int)
    ensures var k', w := Slept(k, n), k.wakeup[k.current := k.ticks + n];
      k'.ticks == k.ticks && k'.wakeup == w && k'.sleeping == InsertOrdered(Earlier(w), k.sleeping, k.current)
  {
    hide InsertOrdered;
  }

  ghost predicate SameClock(k: Kernel, k': Kernel)
  {
    k'.ticks == k.ticks && k'.wakeup == k.wakeup && k'.sleeping == k.sleeping
  }

  lemma DownClock(k: Kernel, s: SemaId)
    requires s in k.value && s in k.waiters
    ensures SameClock(k, DownRound(k, s))
  {
  }

  lemma UppedClock(k: Kernel, s: SemaId)
    requires s in k.value && s in k.waiters
    ensures SameClock(k, Upped(k, s))
  {
    hide StableSort, InsertOrdered, Higher;
  }

  lemma PlainClock(k: Kernel, step: Step)
    requires Enabled(k, step) && !step.Tick? && !step.Sleep?
    ensures SameClock(k, Next(k, step))
  {
    hide StableSort, InsertOrdered, Higher, DownRound, Upped;
    match step
    case SemaDown(s) => DownClock(k, s);
    case Acquire(l) => DownClock(k, l);
    case Recheck => DownClock(k, k.goal[k.current].sema);
    case SemaUp(s) => UppedClock(k, s);
    case Release(l) => UppedClock(k, l);
    case _ =>
  }

  lemma StillMember(less: Less<Tid>, s: seq<Tid>, x: Tid, t: Tid)
    requires t in s
    ensures t in InsertOrdered(less, s, x)
  {
    var n := InsertPos(less, s, x);
    assert s == s[..n] + s[n..];
  }

  /** No sleeper wakes early: while the clock is short of its tick it sleeps. */
  lemma {:induction false} NeverEarly(trace: seq<Kernel>, n: nat, t: Tid, w: int)
    requires Run(trace) && n < |trace| && t in trace[0].sleeping && Key(trace[0].wakeup, t) == w
    requires forall i :: 0 <= i <= n ==> trace[i].ticks < w
    ensures t in trace[n].sleeping && Key(trace[n].wakeup, t) == w
  {
    if n > 0 {
      NeverEarly(trace, n - 1, t, w);
      RunKeeps(trace, n - 1);
      assert StepTo(trace[n - 1], trace[n]);
      var step :| Enabled(trace[n - 1], step) && trace[n] == Next(trace[n - 1], step);
      hide Inv, Next, Enabled;
      SleeperStep(trace[n - 1], step, t);
    }
  }

  /** No sleeper outlasts an interrupt at or past its tick, and none is woken by
      any other step: after every tick exactly those still short of theirs sleep. */
  lemma NeverLate(trace: seq<Kernel>, n: nat, t: Tid)
    requires Run(trace) && n + 1 < |trace| && t in trace[n].sleeping
    ensures trace[n + 1].ticks == trace[n].ticks ==> t in trace[n + 1].sleeping
    ensures trace[n + 1].ticks > trace[n].ticks ==>
      (t in trace[n + 1].sleeping <==> Key(trace[n].wakeup, t) > trace[n + 1].ticks)
    ensures t !in trace[n + 1].sleeping ==> t in trace[n + 1].ready
  {
    RunKeeps(trace, n);
    assert StepTo(trace[n], trace[n + 1]);
    var step :| Enabled(trace[n], step) && trace[n + 1] == Next(trace[n], step);
    hide Inv, Next, Enabled;
    SleeperStep(trace[n], step, t);
  }

  // ----- who runs after a yield -----

  /** Thread `next` has the highest priority of all that can run, and is the one
      that ran before only if every ready thread has a lower one. */
  ghost predicate YieldedTo(k: Kernel, next: Tid)
  {
    && (forall t :: t in k.ready ==> Key(k.prio, t) <= Key(k.prio, next))
    && (k.current != k.idle ==> Key(k.prio, k.current) <= Key(k.prio, next))
    && (k.current != k.idle ==> (next == k.current <==> forall t :: t in k.ready ==> Key(k.prio, t) < Key(k.prio, k.current)))
    && (k.current == k.idle ==> (next == k.idle <==> k.ready == []))
    && (next != k.current ==> Picks(k, next))
  }

  lemma YieldPick(k: Kernel)
    requires Inv(k)
    ensures YieldedTo(k, Yielded(k).current)
  {
    if Yielded(k).current != k.current {
      YieldPicks(k);
    }
    hide Picks;
    var c := k.current;
    if c == k.idle {
      if k.ready != [] {
        forall t | t in k.ready ensures Key(k.prio, t) <= Key(k.prio, k.ready[0]) {
          FirstIsHighest(k.prio, k.ready, t);
        }
        assert k.ready[0] in k.ready;
      }
    } else {
      OneList(k, c);
      YieldedFront(k.prio, k.ready, c);
    }
  }

  lemma YieldedFront(prio: map<Tid, int>, ready: seq<Tid>, c: Tid)
    requires Distinct(ready) && Sorted(Higher(prio), ready) && c !in ready
    ensures var r := InsertOrdered(Higher(prio), ready, c);
      && r != [] && Key(prio, c) <= Key(prio, r[0]) && (forall t :: t in ready ==> Key(prio, t) <= Key(prio, r[0]))
      && (r[0] == c <==> forall t :: t in ready ==> Key(prio, t) < Key(prio, c))
  {
    var r := InsertOrdered(Higher(prio), ready, c);
    KeysOrder(prio, ready + [c]);
    InsertThread(Higher(prio), ready, c);
    InsertedForm(Higher(prio), ready, c);
    assert c in r;
    FirstIsHighest(prio, r, c);
    forall t | t in ready ensures Key(prio, t) <= Key(prio, r[0]) {
      FirstIsHighest(prio, r, t);
    }
    var n := InsertPos(Higher(prio), ready, c);
    if n > 0 {
      assert r[0] == ready[0] && ready[0] in ready;
    } else if ready != [] {
      assert r[0] == c;
      forall t | t in ready ensures Key(prio, t) < Key(prio, c) {
        FirstIsHighest(prio, ready, t);
      }
    }
  }
}
