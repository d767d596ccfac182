/**
 A run from the booted kernel to a state in which lock_acquire follows a NULL
 holder (src/threads/synch.c, lock_priority_donate).

 Thread 1 holds lock 11 and waits for lock 10 behind thread 4; thread 2 releases
 lock 10, which wakes 4 but leaves the lock without a holder until 4 runs; before
 that, thread 3, now of higher priority than every ready thread, asks for lock 11.
 */
module DonationFault {
  import opened ListOrder
  import opened Sequences
  import opened Bitmaps
  import opened Scheduling
  import opened Donation
  import opened SchedulingRuns

  function Priority(t: Tid, top: int): int
  {
    if t == 0 then PRI_MIN else if t == 3 then top else PRI_DEFAULT
  }

  ghost function Statuses(tids: set<Tid>, cur: Tid, ready: seq<Tid>): map<Tid, Status>
  {
    map t | t in tids :: if t == cur then Running else if t in ready then Ready else Blocked
  }

  ghost function Priorities(tids: set<Tid>, top: int): map<Tid, int>
  {
    map t | t in tids :: Priority(t, top)
  }

  ghost function Goals(tids: set<Tid>, cur: Tid, down: set<Tid>): map<Tid, Goal>
  {
    map t | t in tids :: if t !in down then NoGoal else if t == cur then Wants(10) else Down(10)
  }

  /** The states of the run: who exists, who runs, who is ready, who waits for
      lock 10, and who is in its lock_acquire. */
  ghost function Scene(tids: set<Tid>, cur: Tid, ready: seq<Tid>, waiting: seq<Tid>, down: set<Tid>,
                       ten: Option<Tid>, eleven: Option<Tid>, top: int): Kernel
  {
    Kernel(cur, 0, Statuses(tids, cur, ready), Priorities(tids, top), Goals(tids, cur, down), ready,
           map[10 := if ten.Some? then 0 else 1, 11 := if eleven.Some? then 0 else 1],
           map[10 := waiting, 11 := []], map[10 := ten, 11 := eleven], 0, map[], [])
  }

  lemma InsertLast(prio: map<Tid, int>, s: seq<Tid>, x: Tid)
    requires forall t :: t in s ==> Key(prio, t) >= Key(prio, x)
    ensures InsertOrdered(Higher(prio), s, x) == s + [x]
  {
    InsertPosUnique(Higher(prio), s, x, |s|);
  }

  lemma BootedMaps()
    ensures map[1 := Running, 0 := Blocked] == Statuses({0, 1}, 1, [])
    ensures map[1 := PRI_DEFAULT, 0 := PRI_MIN] == Priorities({0, 1}, PRI_DEFAULT)
    ensures map[1 := NoGoal, 0 := NoGoal] == Goals({0, 1}, 1, {})
  {
  }

  lemma Boots()
    ensures Booted(1, 0, map[10 := 1, 11 := 1], {10, 11}) == Scene({0, 1}, 1, [], [], {}, None, None, PRI_DEFAULT)
  {
    BootedMaps();
    hide Statuses, Priorities, Goals;
    var k := Booted(1, 0, map[10 := 1, 11 := 1], {10, 11});
    assert k.waiters == map[10 := [], 11 := []];
    assert k.holder == map[10 := None, 11 := None];
  }

  lemma Pair<T>(a: T, b: T, x: T)
    ensures map[10 := a, 11 := b][10 := x] == map[10 := x, 11 := b]
    ensures map[10 := a, 11 := b][11 := x] == map[10 := a, 11 := x]
  {
  }

  /** The next thread runs; the last one is ready behind the others, or waits. */
  lemma Switch(tids: set<Tid>, cur: Tid, ready: seq<Tid>)
    requires cur in tids && ready != [] && ready[0] in tids && cur !in ready && Distinct(ready)
    ensures Statuses(tids, cur, ready)[cur := Ready][ready[0] := Running] == Statuses(tids, ready[0], ready[1..] + [cur])
    ensures Statuses(tids, cur, ready)[cur := Blocked][ready[0] := Running] == Statuses(tids, ready[0], ready[1..])
  {
    assert forall t :: t in ready <==> t == ready[0] || t in ready[1..];
    assert ready[0] !in ready[1..];
  }

  lemma Wakes(tids: set<Tid>, cur: Tid, ready: seq<Tid>, t: Tid)
    requires t in tids && cur != t
    ensures Statuses(tids, cur, ready)[t := Ready] == Statuses(tids, cur, ready + [t])
  {
  }

  lemma Joins(tids: set<Tid>, cur: Tid, ready: seq<Tid>, down: set<Tid>, t: Tid)
    requires cur in tids && cur != t && t !in down
    ensures Statuses(tids, cur, ready)[t := Ready] == Statuses(tids + {t}, cur, ready + [t])
    ensures Goals(tids, cur, down)[t := NoGoal] == Goals(tids + {t}, cur, down)
    ensures Priorities(tids, PRI_DEFAULT)[t := Priority(t, PRI_DEFAULT)] == Priorities(tids + {t}, PRI_DEFAULT)
  {
  }

  lemma Alike(tids: set<Tid>, ready: seq<Tid>, t: Tid)
    requires t in tids && t != 0 && forall x :: x in ready ==> x in tids && x != 0
    ensures forall x :: x in ready ==> Key(Priorities(tids, PRI_DEFAULT), x) == Key(Priorities(tids, PRI_DEFAULT), t)
  {
  }

  lemma Yields(tids: set<Tid>, cur: Tid, ready: seq<Tid>, waiting: seq<Tid>, down: set<Tid>, ten: Option<Tid>,
               eleven: Option<Tid>,
               ready': seq<Tid>)
    requires cur in tids && cur != 0 && ready != [] && cur !in ready && Distinct(ready) && ready' == ready[1..] + [cur]
    requires cur !in down && ready[0] !in down && forall t :: t in ready ==> t in tids && t != 0
    ensures var k := Scene(tids, cur, ready, waiting, down, ten, eleven, PRI_DEFAULT);
      Enabled(k, Yield) && Next(k, Yield) == Scene(tids, ready[0], ready', waiting, down, ten, eleven, PRI_DEFAULT)
  {
    Alike(tids, ready, cur);
    assert Goals(tids, cur, down) == Goals(tids, ready[0], down);
    hide InsertOrdered, Statuses, Priorities, Goals, Higher, Key;
    InsertLast(Priorities(tids, PRI_DEFAULT), ready, cur);
    Switch(tids, cur, ready);
    assert (ready + [cur])[1..] == ready';
  }

  lemma Creates(tids: set<Tid>, cur: Tid, ready: seq<Tid>, ten: Option<Tid>, eleven: Option<Tid>, t: Tid,
                tids': set<Tid>, ready': seq<Tid>)
    requires cur in tids && 0 in tids && t !in tids && forall t :: t in ready ==> t in tids && t != 0
    requires tids' == tids + {t} && ready' == ready + [t]
    ensures var k := Scene(tids, cur, ready, [], {}, ten, eleven, PRI_DEFAULT);
      && Enabled(k, Create(t, PRI_DEFAULT))
      && Next(k, Create(t, PRI_DEFAULT)) == Scene(tids', cur, ready', [], {}, ten, eleven, PRI_DEFAULT)
  {
    Alike(tids + {t}, ready, t);
    Joins(tids, cur, ready, {}, t);
    assert t !in Statuses(tids, cur, ready);
    assert Statuses(tids, cur, ready)[t := Blocked][t := Ready] == Statuses(tids, cur, ready)[t := Ready];
    assert Priority(t, PRI_DEFAULT) == PRI_DEFAULT;
    hide InsertOrdered, Statuses, Priorities, Goals, Higher, Key;
    InsertLast(Priorities(tids + {t}, PRI_DEFAULT), ready, t);
  }

  /** A free lock is taken at once. */
  lemma Takes(tids: set<Tid>, cur: Tid, ready: seq<Tid>, ten: Option<Tid>, eleven: Option<Tid>, l: SemaId)
    requires cur in tids && cur != 0 && (if l == 10 then ten == None else l == 11 && eleven == None)
    ensures var k := Scene(tids, cur, ready, [], {}, ten, eleven, PRI_DEFAULT);
      && Enabled(k, Acquire(l))
      && Next(k, Acquire(l)) == Scene(tids, cur, ready, [], {}, if l == 10 then Some(cur) else ten,
                                      if l == 11 then Some(cur) else eleven, PRI_DEFAULT)
  {
    var goal := Goals(tids, cur, {});
    assert goal[cur := NoGoal] == goal && cur in goal && goal[cur] == NoGoal;
    hide Statuses, Priorities, Goals;
    Pair<nat>(if ten.Some? then 0 else 1, if eleven.Some? then 0 else 1, 0);
    Pair(ten, eleven, Some(cur));
  }

  /** A thread asks for lock 10, which another holds. */
  lemma Asks(tids: set<Tid>, cur: Tid, ready: seq<Tid>, waiting: seq<Tid>, down: set<Tid>, ten: Tid,
             eleven: Option<Tid>, down': set<Tid>)
    requires cur in tids && cur != 0 && cur !in down && ten != cur && down' == down + {cur}
    ensures var k := Scene(tids, cur, ready, waiting, down, Some(ten), eleven, PRI_DEFAULT);
      Enabled(k, Ask(10)) && Next(k, Ask(10)) == Scene(tids, cur, ready, waiting, down', Some(ten), eleven, PRI_DEFAULT)
  {
    var goal := Goals(tids, cur, down);
    assert goal[cur := Wants(10)] == Goals(tids, cur, down') && cur in goal && goal[cur] == NoGoal;
    hide Statuses, Priorities, Goals;
  }

  /** Then it waits for it. */
  lemma Waits(tids: set<Tid>, cur: Tid, ready: seq<Tid>, waiting: seq<Tid>, down: set<Tid>, ten: Tid,
              eleven: Option<Tid>,
              ready': seq<Tid>, waiting': seq<Tid>)
    requires cur in tids && cur != 0 && cur in down && ready != [] && cur !in ready && Distinct(ready)
    requires ready[0] in tids && ready[0] !in down
    requires ready' == ready[1..] && waiting' == waiting + [cur]
    ensures var k := Scene(tids, cur, ready, waiting, down, Some(ten), eleven, PRI_DEFAULT);
      Enabled(k, Recheck) && Next(k, Recheck) == Scene(tids, ready[0], ready', waiting', down, Some(ten), eleven, PRI_DEFAULT)
  {
    var goal := Goals(tids, cur, down);
    assert goal[cur := Down(10)] == Goals(tids, ready[0], down) && cur in goal && goal[cur] == Wants(10);
    Switch(tids, cur, ready);
    hide Statuses, Priorities, Goals;
    Pair(waiting, [], waiting');
  }

  /** sema_up on lock 10 wakes the first waiter. */
  lemma Ups(tids: set<Tid>, cur: Tid, ready: seq<Tid>, a: Tid, b: Tid, down: set<Tid>, eleven: Option<Tid>,
            ready': seq<Tid>)
    requires cur in tids && a in tids && b in tids && cur != a && a != 0 && b != 0 && ready' == ready + [a]
    requires forall t :: t in ready ==> t in tids && t != 0
    ensures var k := Scene(tids, cur, ready, [a, b], down, Some(cur), eleven, PRI_DEFAULT);
      Upped(k, 10) == k.(status := Statuses(tids, cur, ready'), ready := ready', waiters := map[10 := [b], 11 := []],
                         value := map[10 := 1, 11 := if eleven.Some? then 0 else 1])
  {
    var prio := Priorities(tids, PRI_DEFAULT);
    Alike(tids, ready, a);
    Alike(tids, [b], a);
    assert b in [b];
    Wakes(tids, cur, ready, a);
    hide InsertOrdered, StableSort, Statuses, Priorities, Goals, Higher, Key;
    SortTwo(prio, a, b);
    InsertLast(prio, ready, a);
    Pair<nat>(0, if eleven.Some? then 0 else 1, 1);
    Pair([a, b], [], [b]);
    var w := [a, b];
    assert w[1..] == [b] && w[0] == a;
  }

  /** The holder releases lock 10, and nobody holds it. */
  lemma Releases(tids: set<Tid>, cur: Tid, ready: seq<Tid>, a: Tid, b: Tid, down: set<Tid>, eleven: Option<Tid>,
                 ready': seq<Tid>)
    requires cur in tids && a in tids && b in tids && cur != a && a != 0 && b != 0 && ready' == ready + [a]
    requires forall t :: t in ready ==> t in tids && t != 0
    ensures var k := Scene(tids, cur, ready, [a, b], down, Some(cur), eleven, PRI_DEFAULT);
      Enabled(k, Release(10)) && Next(k, Release(10)) == Scene(tids, cur, ready', [b], down, None, eleven, PRI_DEFAULT)
  {
    hide Statuses, Priorities, Goals, Upped;
    Ups(tids, cur, ready, a, b, down, eleven, ready');
    Pair(Some(cur), eleven, None);
  }

  /** Two threads in order stay as they are. */
  lemma SortTwo(prio: map<Tid, int>, a: Tid, b: Tid)
    requires Key(prio, a) >= Key(prio, b)
    ensures StableSort(Higher(prio), [a, b]) == [a, b]
  {
    var s := [a, b];
    KeysOrder(prio, s);
    assert Sorted(Higher(prio), s);
    hide StableSort, InsertOrdered;
    SortIdempotent(Higher(prio), s);
  }

  lemma Rises(tids: set<Tid>, down: set<Tid>)
    requires tids == {0, 1, 2, 3, 4}
    ensures var k := Scene(tids, 3, [4, 2], [1], down, None, Some(1), PRI_DEFAULT);
      && Enabled(k, SetPriority(PRI_DEFAULT + 1))
      && Next(k, SetPriority(PRI_DEFAULT + 1)) == Scene(tids, 3, [4, 2], [1], down, None, Some(1), PRI_DEFAULT + 1)
  {
    var prio := Priorities(tids, PRI_DEFAULT + 1);
    assert Priorities(tids, PRI_DEFAULT)[3 := PRI_DEFAULT + 1] == prio && Key(prio, 4) == Key(prio, 2);
    assert 3 in Priorities(tids, PRI_DEFAULT);
    hide StableSort, Statuses, Priorities, Goals, Higher, Key;
    SortTwo(prio, 4, 2);
  }

  /** At the end of the run thread 3 may ask for lock 11, no ready thread can
      run before it is done, and its donation comes to lock 10. */
  lemma Dangles(k: Kernel)
    requires k == Scene({0, 1, 2, 3, 4}, 3, [4, 2], [1], {1, 4}, None, Some(1), PRI_DEFAULT + 1)
    ensures Free(k) && 11 in k.holder && k.holder[11] == Some(1) && 1 in k.status && k.status[1] == Blocked
    ensures !MayAcquire(k, 11)
    ensures forall t :: t in k.ready ==> Key(k.prio, t) < Key(k.prio, k.current)
  {
    var k0 := Asking(k, 11);
    assert Follows(k0, PRI_DEFAULT + 1, 11, 10);
    assert Path(k0, PRI_DEFAULT + 1, [11, 10]);
  }

  lemma Goes(trace: seq<Kernel>, k0: Kernel, k: Kernel, step: Step) returns (longer: seq<Kernel>, k': Kernel)
    requires From(trace, k0, k) && Enabled(k, step)
    ensures From(longer, k0, k') && k' == Next(k, step)
  {
    RunAfter(trace, k0, k, step);
    longer, k' := trace + [Next(k, step)], Next(k, step);
  }

  /** Thread 1 takes lock 11 and thread 2 takes lock 10. */
  lemma Starts(trace: seq<Kernel>, k0: Kernel) returns (longer: seq<Kernel>, k: Kernel)
    requires From(trace, k0, Scene({0, 1}, 1, [], [], {}, None, None, PRI_DEFAULT))
    ensures From(longer, k0, k) && k == Scene({0, 1, 2}, 2, [1], [], {}, Some(2), Some(1), PRI_DEFAULT)
  {
    hide Scene, From, Enabled, Next;
    longer, k := trace, Scene({0, 1}, 1, [], [], {}, None, None, PRI_DEFAULT);
    Takes({0, 1}, 1, [], None, None, 11);
    longer, k := Goes(longer, k0, k, Acquire(11));
    Creates({0, 1}, 1, [], None, Some(1), 2, {0, 1, 2}, [2]);
    longer, k := Goes(longer, k0, k, Create(2, PRI_DEFAULT));
    Yields({0, 1, 2}, 1, [2], [], {}, None, Some(1), [1]);
    longer, k := Goes(longer, k0, k, Yield);
    Takes({0, 1, 2}, 2, [1], None, Some(1), 10);
    longer, k := Goes(longer, k0, k, Acquire(10));
  }

  /** All threads exist, and thread 4 runs. */
  lemma Fills(trace: seq<Kernel>, k0: Kernel) returns (longer: seq<Kernel>, k: Kernel)
    requires From(trace, k0, Scene({0, 1, 2}, 2, [1], [], {}, Some(2), Some(1), PRI_DEFAULT))
    ensures From(longer, k0, k) && k == Scene({0, 1, 2, 3, 4}, 4, [2, 3, 1], [], {}, Some(2), Some(1), PRI_DEFAULT)
  {
    hide Scene, From, Enabled, Next;
    longer, k := trace, Scene({0, 1, 2}, 2, [1], [], {}, Some(2), Some(1), PRI_DEFAULT);
    Creates({0, 1, 2}, 2, [1], Some(2), Some(1), 4, {0, 1, 2, 4}, [1, 4]);
    longer, k := Goes(longer, k0, k, Create(4, PRI_DEFAULT));
    Yields({0, 1, 2, 4}, 2, [1, 4], [], {}, Some(2), Some(1), [4, 2]);
    longer, k := Goes(longer, k0, k, Yield);
    Creates({0, 1, 2, 4}, 1, [4, 2], Some(2), Some(1), 3, {0, 1, 2, 3, 4}, [4, 2, 3]);
    longer, k := Goes(longer, k0, k, Create(3, PRI_DEFAULT));
    Yields({0, 1, 2, 3, 4}, 1, [4, 2, 3], [], {}, Some(2), Some(1), [2, 3, 1]);
    longer, k := Goes(longer, k0, k, Yield);
  }

  /** Threads 4 and 1 come to wait for lock 10. */
  lemma Queues(trace: seq<Kernel>, k0: Kernel) returns (longer: seq<Kernel>, k: Kernel)
    requires From(trace, k0, Scene({0, 1, 2, 3, 4}, 4, [2, 3, 1], [], {}, Some(2), Some(1), PRI_DEFAULT))
    ensures From(longer, k0, k) && k == Scene({0, 1, 2, 3, 4}, 2, [3], [4, 1], {1, 4}, Some(2), Some(1), PRI_DEFAULT)
  {
    hide Scene, From, Enabled, Next;
    longer, k := trace, Scene({0, 1, 2, 3, 4}, 4, [2, 3, 1], [], {}, Some(2), Some(1), PRI_DEFAULT);
    Asks({0, 1, 2, 3, 4}, 4, [2, 3, 1], [], {}, 2, Some(1), {4});
    longer, k := Goes(longer, k0, k, Ask(10));
    Waits({0, 1, 2, 3, 4}, 4, [2, 3, 1], [], {4}, 2, Some(1), [3, 1], [4]);
    longer, k := Goes(longer, k0, k, Recheck);
    Yields({0, 1, 2, 3, 4}, 2, [3, 1], [4], {4}, Some(2), Some(1), [1, 2]);
    longer, k := Goes(longer, k0, k, Yield);
    Yields({0, 1, 2, 3, 4}, 3, [1, 2], [4], {4}, Some(2), Some(1), [2, 3]);
    longer, k := Goes(longer, k0, k, Yield);
    Asks({0, 1, 2, 3, 4}, 1, [2, 3], [4], {4}, 2, Some(1), {1, 4});
    longer, k := Goes(longer, k0, k, Ask(10));
    Waits({0, 1, 2, 3, 4}, 1, [2, 3], [4], {1, 4}, 2, Some(1), [3], [4, 1]);
    longer, k := Goes(longer, k0, k, Recheck);
  }

  /** Thread 2 releases it, and thread 3 raises its own priority. */
  lemma Frees(trace: seq<Kernel>, k0: Kernel) returns (longer: seq<Kernel>, k: Kernel)
    requires From(trace, k0, Scene({0, 1, 2, 3, 4}, 2, [3], [4, 1], {1, 4}, Some(2), Some(1), PRI_DEFAULT))
    ensures From(longer, k0, k) && k == Scene({0, 1, 2, 3, 4}, 3, [4, 2], [1], {1, 4}, None, Some(1), PRI_DEFAULT + 1)
  {
    hide Scene, From, Enabled, Next;
    longer, k := trace, Scene({0, 1, 2, 3, 4}, 2, [3], [4, 1], {1, 4}, Some(2), Some(1), PRI_DEFAULT);
    Releases({0, 1, 2, 3, 4}, 2, [3], 4, 1, {1, 4}, Some(1), [3, 4]);
    longer, k := Goes(longer, k0, k, Release(10));
    Yields({0, 1, 2, 3, 4}, 2, [3, 4], [1], {1, 4}, None, Some(1), [4, 2]);
    longer, k := Goes(longer, k0, k, Yield);
    Rises({0, 1, 2, 3, 4}, {1, 4});
    longer, k := Goes(longer, k0, k, SetPriority(PRI_DEFAULT + 1));
  }

  /** A run from the booted kernel that ends where lock_acquire follows the NULL
      holder of lock 10: no ready thread has the caller's priority, and the one
      thread raised on the way is blocked, so nothing else runs before that. */
  lemma NullHolder() returns (trace: seq<Kernel>, k: Kernel)
    ensures From(trace, Booted(1, 0, map[10 := 1, 11 := 1], {10, 11}), k)
    ensures Free(k) && 11 in k.holder && k.holder[11] == Some(1) && 1 in k.status && k.status[1] == Blocked
    ensures forall t :: t in k.ready ==> Key(k.prio, t) < Key(k.prio, k.current)
    ensures !MayAcquire(k, 11)
  {
    hide *;
    var k0 := Booted(1, 0, map[10 := 1, 11 := 1], {10, 11});
    BootedInv(1, 0, map[10 := 1, 11 := 1], {10, 11});
    Boots();
    RunOfOne(k0);
    trace, k := Starts([k0], k0);
    trace, k := Fills(trace, k0);
    trace, k := Queues(trace, k0);
    trace, k := Frees(trace, k0);
    Dangles(k);
  }
}
