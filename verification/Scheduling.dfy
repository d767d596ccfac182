/**
 Threads, semaphores, locks and the alarm clock as atomic steps
 (src/threads/thread.c, src/threads/synch.c, src/devices/timer.c).

 Interrupts are off inside each step; control moves to another thread only in
 thread_block, thread_yield and thread_exit.  The fields of `struct thread`,
 of semaphores and of locks are maps, so that each step says what it changes.
 */
module Scheduling {
  import opened ListOrder
  import opened Sequences
  import opened Bitmaps

  type Tid = int
  type SemaId = int

  datatype Status = Running | Ready | Blocked | Dying

  /** `Wants(l)`: in lock_acquire of lock `l`, before its sema_down.  `Down(s)`: in
      the loop of sema_down on `s`, after waiting at least once.  For a lock
      `plock_acq` points to it in both. */
  datatype Goal = NoGoal | Wants(sema: SemaId) | Down(sema: SemaId)

  datatype Kernel = Kernel(
    current: Tid,
    idle: Tid,
    status: map<Tid, Status>,
    prio: map<Tid, int>,
    goal: map<Tid, Goal>,
    ready: seq<Tid>,
    value: map<SemaId, nat>,
    waiters: map<SemaId, seq<Tid>>,
    holder: map<SemaId, Option<Tid>>,    // exactly the semaphores of locks
    ticks: int,
    wakeup: map<Tid, int>,
    sleeping: seq<Tid>)

  // ----- comparisons -----

  function Key(m: map<Tid, int>, t: Tid): int
  {
    if t in m then m[t] else 0
  }

  /** higher_priority. */
  function Higher(prio: map<Tid, int>): Less<Tid>
  {
    (x, y) => Key(prio, x) > Key(prio, y)
  }

  /** less_wakeup_tick. */
  function Earlier(wakeup: map<Tid, int>): Less<Tid>
  {
    (x, y) => Key(wakeup, x) < Key(wakeup, y)
  }

  lemma KeysOrder(m: map<Tid, int>, s: seq<Tid>)
    ensures StrictWeakOrder(Higher(m), s) && StrictWeakOrder(Earlier(m), s)
  {
  }

  // ----- the steps -----

  /** schedule: the front of the ready list, or the idle thread. */
  function Scheduled(k: Kernel): Kernel
  {
    var next := if k.ready == [] then k.idle else k.ready[0];
    k.(current := next, ready := if k.ready == [] then [] else k.ready[1..], status := k.status[next := Running])
  }

  function Blocking(k: Kernel): Kernel
  {
    Scheduled(k.(status := k.status[k.current := Blocked]))
  }

  function Yielded(k: Kernel): Kernel
  {
    var r := if k.current != k.idle then InsertOrdered(Higher(k.prio), k.ready, k.current) else k.ready;
    Scheduled(k.(ready := r, status := k.status[k.current := Ready]))
  }

  function Unblocked(k: Kernel, t: Tid): Kernel
  {
    k.(ready := InsertOrdered(Higher(k.prio), k.ready, t), status := k.status[t := Ready])
  }

  /** One round of the loop of sema_down by the running thread, and what
      follows it in lock_acquire. */
  function DownRound(k: Kernel, s: SemaId): Kernel
    requires s in k.value && s in k.waiters
  {
    if k.value[s] == 0 then
      Blocking(k.(waiters := k.waiters[s := k.waiters[s] + [k.current]], goal := k.goal[k.current := Down(s)]))
    else
      k.(value := k.value[s := k.value[s] - 1], goal := k.goal[k.current := NoGoal],
         holder := if s in k.holder then k.holder[s := Some(k.current)] else k.holder)
  }

  /** sema_up, up to its call of recalculate_priority. */
  function Upped(k: Kernel, s: SemaId): Kernel
    requires s in k.value && s in k.waiters
  {
    var w := if |k.waiters[s]| > 1 then StableSort(Higher(k.prio), k.waiters[s]) else k.waiters[s];
    var k1 := if w == [] then k else Unblocked(k.(waiters := k.waiters[s := w[1..]]), w[0]);
    k1.(value := k1.value[s := k.value[s] + 1])
  }

  /** specific_thread_set_priority, without the yield at its end. */
  function PrioritySet(k: Kernel, t: Tid, p: int): Kernel
  {
    var prio := k.prio[t := p];
    k.(prio := prio, ready := if k.ready == [] then [] else StableSort(Higher(prio), k.ready))
  }

  function Slept(k: Kernel, n: int): Kernel
  {
    var wakeup := k.wakeup[k.current := k.ticks + n];
    Blocking(k.(wakeup := wakeup, sleeping := InsertOrdered(Earlier(wakeup), k.sleeping, k.current)))
  }

  /** The loop of timer_interrupt. */
  function WokenUp(k: Kernel): Kernel
    decreases |k.sleeping|
  {
    if k.sleeping == [] || Key(k.wakeup, k.sleeping[0]) > k.ticks then k
    else WokenUp(Unblocked(k.(sleeping := k.sleeping[1..]), k.sleeping[0]))
  }

  function Ticked(k: Kernel): Kernel
  {
    WokenUp(k.(ticks := k.ticks + 1))
  }

  // ----- what every state satisfies -----

  ghost predicate Keys(k: Kernel)
  {
    && k.current in k.status && k.idle in k.status && k.status.Keys == k.prio.Keys == k.goal.Keys
    && k.value.Keys == k.waiters.Keys && k.holder.Keys <= k.value.Keys
    && k.goal[k.idle] == NoGoal
  }

  ghost predicate OnCpu(k: Kernel)
  {
    forall t :: t in k.status ==> (k.status[t] == Running <==> t == k.current)
  }

  ghost predicate NoneRunning(k: Kernel)
  {
    forall t :: t in k.status ==> k.status[t] != Running
  }

  /** The ready list holds exactly the ready threads, once each, by priority. */
  ghost predicate ReadyOk(status: map<Tid, Status>, prio: map<Tid, int>, ready: seq<Tid>, idle: Tid)
  {
    && Distinct(ready) && Sorted(Higher(prio), ready)
    && (forall t :: t in ready ==> t in status && status[t] == Ready && t != idle)
    && (forall t :: t in status && status[t] == Ready && t != idle ==> t in ready)
  }

  /** Sleepers are blocked, listed once, by wake-up tick. */
  ghost predicate SleepOk(status: map<Tid, Status>, goal: map<Tid, Goal>, wakeup: map<Tid, int>, sleeping: seq<Tid>,
                          idle: Tid)
  {
    && Distinct(sleeping) && Sorted(Earlier(wakeup), sleeping)
    && (forall t :: t in sleeping ==> t in status && status[t] == Blocked && t != idle && t in goal && goal[t] == NoGoal)
  }

  /** A thread waits on a semaphore exactly when it is blocked inside its sema_down. */
  ghost predicate WaitOk(status: map<Tid, Status>, goal: map<Tid, Goal>, waiters: map<SemaId, seq<Tid>>)
  {
    && (forall s :: s in waiters ==> Distinct(waiters[s]))
    && (forall s, t :: s in waiters && t in waiters[s] ==>
        t in status && status[t] == Blocked && t in goal && goal[t] == Down(s))
    && (forall t :: t in status && t in goal && goal[t].Down? ==>
        status[t] != Dying && goal[t].sema in waiters && (status[t] == Blocked ==> t in waiters[goal[t].sema]))
    && (forall t :: t in status && t in goal && goal[t].Wants? ==>
        status[t] != Dying && status[t] != Blocked && goal[t].sema in waiters)
  }

  /** No blocked thread is forgotten. */
  ghost predicate NoneLost(status: map<Tid, Status>, goal: map<Tid, Goal>, sleeping: seq<Tid>, idle: Tid)
  {
    forall t :: t in status && status[t] == Blocked && t != idle ==> t in sleeping || (t in goal && goal[t].Down?)
  }

  /** Threads woken from `s` that have not yet looked at its value again. */
  ghost function Pending(status: map<Tid, Status>, goal: map<Tid, Goal>, s: SemaId): set<Tid>
  {
    set t | t in status && t in goal && goal[t] == Down(s) && status[t] != Blocked
  }

  /** No lost wakeup: while threads wait, every unit of the value has a woken
      thread on its way to take it. */
  ghost predicate Wakeups(status: map<Tid, Status>, goal: map<Tid, Goal>, waiters: map<SemaId, seq<Tid>>,
                          value: map<SemaId, nat>)
  {
    forall s :: s in waiters && s in value && waiters[s] != [] ==> value[s] <= |Pending(status, goal, s)|
  }

  /** A lock is free or held by one thread, never both, never neither. */
  ghost predicate Locks(value: map<SemaId, nat>, holder: map<SemaId, Option<Tid>>)
  {
    forall l :: l in holder ==> l in value && value[l] == if holder[l].Some? then 0 else 1
  }

  ghost predicate Base(k: Kernel)
  {
    && Keys(k) && ReadyOk(k.status, k.prio, k.ready, k.idle)
    && SleepOk(k.status, k.goal, k.wakeup, k.sleeping, k.idle) && WaitOk(k.status, k.goal, k.waiters)
    && NoneLost(k.status, k.goal, k.sleeping, k.idle) && Wakeups(k.status, k.goal, k.waiters, k.value)
    && Locks(k.value, k.holder)
  }

  ghost predicate Inv(k: Kernel)
  {
    Base(k) && OnCpu(k)
  }

  /** No thread's `elem` is on two lists. */
  lemma OneList(k: Kernel, t: Tid)
    requires Inv(k)
    ensures !(t in k.ready && t in k.sleeping)
    ensures forall s :: s in k.waiters && t in k.waiters[s] ==> t !in k.ready && t !in k.sleeping
    ensures forall s, s' :: s in k.waiters && s' in k.waiters && t in k.waiters[s] && t in k.waiters[s'] ==> s == s'
    ensures t == k.current ==> t !in k.ready && t !in k.sleeping && forall s :: s in k.waiters ==> t !in k.waiters[s]
  {
  }

  // ----- ordered insertion and sorting of thread lists -----

  lemma InsertThread(less: Less<Tid>, s: seq<Tid>, x: Tid)
    requires StrictWeakOrder(less, s + [x]) && Sorted(less, s) && Distinct(s) && x !in s
    ensures Sorted(less, InsertOrdered(less, s, x)) && Distinct(InsertOrdered(less, s, x))
    ensures forall t :: t in InsertOrdered(less, s, x) <==> t in s || t == x
  {
    InsertKeepsSorted(less, s, x);
    InsertedMembers(less, s, x);
  }

  lemma InsertedMembers(less: Less<Tid>, s: seq<Tid>, x: Tid)
    requires Distinct(s) && x !in s
    ensures Distinct(InsertOrdered(less, s, x))
    ensures forall t :: t in InsertOrdered(less, s, x) <==> t in s || t == x
  {
    var n, r := InsertPos(less, s, x), InsertOrdered(less, s, x);
    hide InsertPos, InsertOrdered;
    assert r == s[..n] + [x] + s[n..] && s == s[..n] + s[n..] by {
      InsertedForm(less, s, x);
    }
    assert forall i :: 0 <= i < |r| ==> r[i] == if i < n then s[i] else if i == n then x else s[i - 1];
    assert forall t :: t in s <==> t in s[..n] || t in s[n..];
  }

  lemma InsertedForm(less: Less<Tid>, s: seq<Tid>, x: Tid)
    ensures var n := InsertPos(less, s, x); InsertOrdered(less, s, x) == s[..n] + [x] + s[n..]
  {
  }

  lemma {:induction false} SortThreads(less: Less<Tid>, s: seq<Tid>)
    requires StrictWeakOrder(less, s) && Distinct(s)
    ensures Sorted(less, StableSort(less, s)) && Distinct(StableSort(less, s))
    ensures forall t :: t in StableSort(less, s) <==> t in s
  {
    StableSortCorrect(less, s);
    var r := StableSort(less, s);
    SeqMembers(s, r);
    forall x ensures multiset(s)[x] <= 1 {
      DistinctMultiplicity(s, x);
    }
    MultiplicityDistinct(r);
  }

  lemma {:induction false} DistinctMultiplicity(s: seq<Tid>, x: Tid)
    requires Distinct(s)
    ensures multiset(s)[x] <= 1
  {
    if s != [] {
      var p := s[..|s| - 1];
      assert s == p + [s[|s| - 1]];
      DistinctMultiplicity(p, x);
    }
  }

  lemma MultiplicityDistinct(s: seq<Tid>)
    requires forall x :: multiset(s)[x] <= 1
    ensures Distinct(s)
  {
    forall i, j | 0 <= i < j < |s| ensures s[i] != s[j] {
      var a, b := s[..j], s[j..];
      assert s == a + b && s[i] == a[i] && s[i] in a && s[j] == b[0] && s[j] in b;
      assert multiset(s) == multiset(a) + multiset(b);
      assert multiset(a)[s[i]] >= 1;
      assert multiset(b)[s[j]] >= 1;
      assert multiset(s)[s[i]] <= 1;
    }
  }
}
