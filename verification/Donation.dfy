/**
 Priority donation along chains of locks (src/threads/synch.c, lock_acquire and
 lock_priority_donate).
 */
module Donation {
  import opened Bitmaps
  import opened ListOrder
  import opened Scheduling
  import opened SchedulingSteps

  /** `plock_acq`: the lock a thread is waiting for. */
  predicate Awaits(k: Kernel, t: Tid, l: SemaId)
  {
    t in k.goal && (k.goal[t] == Wants(l) || k.goal[t] == Down(l)) && l in k.holder
  }

  predicate AwaitsSome(k: Kernel, t: Tid)
  {
    t in k.goal && k.goal[t] != NoGoal && k.goal[t].sema in k.holder
  }

  predicate Held(k: Kernel, l: SemaId)
  {
    l in k.holder && k.holder[l].Some? && k.holder[l].value in k.prio
  }

  ghost function Below(prio: map<Tid, int>, p: int): set<Tid>
  {
    set t | t in prio && prio[t] < p
  }

  lemma BelowShrinks(prio: map<Tid, int>, p: int, t: Tid)
    requires t in prio && prio[t] < p
    ensures |Below(prio[t := p], p)| < |Below(prio, p)|
  {
    assert Below(prio, p) == Below(prio[t := p], p) + {t};
  }

  /** lock_priority_donate; `None` when it follows the holder pointer of a lock
      that has no holder.  It ends even when the locks wait for each other in a
      circle: each call raises one more thread to `p`. */
  ghost function Walk(k: Kernel, l: SemaId, p: int): (r: Option<Kernel>)
    ensures r.Some? ==> r.value == k.(prio := r.value.prio, ready := r.value.ready)
    decreases |Below(k.prio, p)|
  {
    if !Held(k, l) then None
    else
      var h := k.holder[l].value;
      if k.prio[h] >= p then Some(k)
      else
        BelowShrinks(k.prio, p, h);
        if AwaitsSome(k, h) then Walk(PrioritySet(k, h, p), k.goal[h].sema, p) else Some(PrioritySet(k, h, p))
  }

  // ----- when the walk meets a lock without a holder -----

  /** From lock `a` the walk goes on to lock `b`. */
  predicate Follows(k: Kernel, p: int, a: SemaId, b: SemaId)
  {
    Held(k, a) && k.prio[k.holder[a].value] < p && Awaits(k, k.holder[a].value, b)
  }

  ghost predicate Path(k: Kernel, p: int, path: seq<SemaId>)
  {
    path != [] && forall i :: 0 <= i < |path| - 1 ==> Follows(k, p, path[i], path[i + 1])
  }

  /** Every lock that can be come to from `l`, through holders of priority below
      `p` and the locks they wait for, has a holder. */
  ghost predicate WalkSafe(k: Kernel, l: SemaId, p: int)
  {
    forall path :: Path(k, p, path) && path[0] == l ==> Held(k, path[|path| - 1])
  }

  /** The walk completes if and only if no lock on its way is without a holder
      before it starts. */
  lemma WalkCompletesIff(k: Kernel, l: SemaId, p: int)
    ensures Walk(k, l, p).Some? <==> WalkSafe(k, l, p)
  {
    if Walk(k, l, p).Some? {
      forall path | Path(k, p, path) && path[0] == l ensures Held(k, path[|path| - 1]) {
        PathEndsHeld(k, l, p, path);
      }
    }
    if WalkSafe(k, l, p) {
      SafeWalks(k, l, p);
    }
  }

  /** A path that comes back to a lock of the raised holder can be cut short. */
  lemma {:induction false} PathEndsHeld(k: Kernel, l: SemaId, p: int, path: seq<SemaId>)
    requires Walk(k, l, p).Some? && Path(k, p, path) && path[0] == l
    ensures Held(k, path[|path| - 1])
    decreases |Below(k.prio, p)|, |path|
  {
    if |path| > 1 {
      assert Follows(k, p, path[0], path[1]);
      var h, rest := k.holder[l].value, path[1..];
      var k1 := PrioritySet(k, h, p);
      BelowShrinks(k.prio, p, h);
      forall i | 0 <= i < |rest| - 1 ensures Follows(k, p, rest[i], rest[i + 1]) {
        assert Follows(k, p, path[i + 1], path[i + 2]);
      }
      if Path(k1, p, rest) {
        PathEndsHeld(k1, path[1], p, rest);
      } else {
        var j :| 0 <= j < |rest| - 1 && !Follows(k1, p, rest[j], rest[j + 1]);
        assert Follows(k, p, rest[j], rest[j + 1]);
        assert rest[j + 1] == path[1];
        var short := [l] + rest[j + 1..];
        forall i | 0 <= i < |short| - 1 ensures Follows(k, p, short[i], short[i + 1]) {
          if i > 0 {
            assert Follows(k, p, rest[j + i], rest[j + i + 1]);
          }
        }
        PathEndsHeld(k, l, p, short);
      }
    }
  }

  lemma {:induction false} SafeWalks(k: Kernel, l: SemaId, p: int)
    requires WalkSafe(k, l, p)
    ensures Walk(k, l, p).Some?
    decreases |Below(k.prio, p)|
  {
    assert Path(k, p, [l]);
    var h := k.holder[l].value;
    if k.prio[h] < p && AwaitsSome(k, h) {
      var k1, l2 := PrioritySet(k, h, p), k.goal[h].sema;
      BelowShrinks(k.prio, p, h);
      forall path | Path(k1, p, path) && path[0] == l2 ensures Held(k1, path[|path| - 1]) {
        var longer := [l] + path;
        forall i | 0 <= i < |longer| - 1 ensures Follows(k, p, longer[i], longer[i + 1]) {
          if i > 0 {
            assert Follows(k1, p, path[i - 1], path[i]);
          }
        }
        assert Path(k, p, longer) && longer[|longer| - 1] == path[|path| - 1];
      }
      SafeWalks(k1, l2, p);
    }
  }

  // ----- what the walk does -----

  /** Every lock that is waited for has a holder. */
  ghost predicate AllHeld(k: Kernel)
  {
    forall t, l :: Awaits(k, t, l) ==> Held(k, l)
  }

  lemma StillHeld(k: Kernel, t: Tid, p: int)
    requires AllHeld(k) && t in k.prio
    ensures AllHeld(PrioritySet(k, t, p)) && forall l :: Held(k, l) ==> Held(PrioritySet(k, t, p), l)
  {
    var k1 := PrioritySet(k, t, p);
    forall x, l | Awaits(k1, x, l) ensures Held(k1, l) {
      assert Awaits(k, x, l);
    }
  }

  /** The waiter has donated: the holder runs at least at its priority. */
  predicate EdgeOk(k: Kernel, t: Tid, l: SemaId)
    requires Held(k, l)
  {
    k.prio[k.holder[l].value] >= Key(k.prio, t)
  }

  ghost predicate AllEdgesOk(k: Kernel)
    requires AllHeld(k)
  {
    forall t, l :: Awaits(k, t, l) ==> EdgeOk(k, t, l)
  }

  /** All edges are right but those into `l`, whose waiters ask for no more than `p`. */
  ghost predicate EdgesOkBut(k: Kernel, l: SemaId, p: int)
    requires AllHeld(k) && Held(k, l)
  {
    forall t, l' :: Awaits(k, t, l') ==> EdgeOk(k, t, l') || (l' == l && Key(k.prio, t) <= p)
  }

  /** The donation walk repairs every edge. */
  lemma {:induction false} DonationRepairs(k: Kernel, l: SemaId, p: int)
    requires AllHeld(k) && Held(k, l) && EdgesOkBut(k, l, p)
    ensures Walk(k, l, p).Some? && AllHeld(Walk(k, l, p).value) && AllEdgesOk(Walk(k, l, p).value)
    decreases |Below(k.prio, p)|
  {
    var h := k.holder[l].value;
    if k.prio[h] >= p {
      assert forall t :: Awaits(k, t, l) ==> EdgeOk(k, t, l);
    } else {
      var k1 := PrioritySet(k, h, p);
      BelowShrinks(k.prio, p, h);
      StillHeld(k, h, p);
      if AwaitsSome(k, h) {
        var l2 := k.goal[h].sema;
        assert Awaits(k, h, l2);
        RaisedEdges(k, l, p, h, l2);
        DonationRepairs(k1, l2, p);
      } else {
        forall t, l' | Awaits(k1, t, l') ensures EdgeOk(k1, t, l') {
          assert Awaits(k, t, l');
        }
      }
    }
  }

  lemma RaisedEdges(k: Kernel, l: SemaId, p: int, h: Tid, l2: SemaId)
    requires AllHeld(k) && Held(k, l) && EdgesOkBut(k, l, p)
    requires h == k.holder[l].value && k.prio[h] < p && Awaits(k, h, l2)
    ensures var k1 := PrioritySet(k, h, p); AllHeld(k1) && Held(k1, l2) && EdgesOkBut(k1, l2, p)
  {
    StillHeld(k, h, p);
    var k1 := PrioritySet(k, h, p);
    forall t, l' | Awaits(k1, t, l') ensures EdgeOk(k1, t, l') || (l' == l2 && Key(k1.prio, t) <= p) {
      assert Awaits(k, t, l');
    }
  }

  /** The walk from `l` comes to a lock that `t` holds, and `t` is below `p`. */
  ghost predicate OnWay(k: Kernel, l: SemaId, p: int, t: Tid)
  {
    exists path :: WayTo(k, l, p, t, path)
  }

  ghost predicate WayTo(k: Kernel, l: SemaId, p: int, t: Tid, path: seq<SemaId>)
  {
    && Path(k, p, path) && path[0] == l && t in k.prio && k.prio[t] < p
    && Held(k, path[|path| - 1]) && k.holder[path[|path| - 1]].value == t
  }

  /** Exactly the threads below `p` that the walk comes to are raised, to `p`. */
  ghost predicate RaisedTo(k: Kernel, k': Kernel, l: SemaId, p: int)
  {
    && Held(k, l) && k'.prio.Keys == k.prio.Keys && k'.prio[k.holder[l].value] >= p
    && forall t :: t in k.prio ==> k'.prio[t] == if OnWay(k, l, p, t) then p else k.prio[t]
  }

  lemma {:induction false} DonationBounds(k: Kernel, l: SemaId, p: int)
    requires Walk(k, l, p).Some?
    ensures var k' := Walk(k, l, p).value;
      && Held(k, l) && k'.prio.Keys == k.prio.Keys && k'.prio[k.holder[l].value] >= p
      && forall t :: t in k.prio ==> k'.prio[t] == k.prio[t] || (k.prio[t] < p && k'.prio[t] == p)
    decreases |Below(k.prio, p)|
  {
    var h := k.holder[l].value;
    if k.prio[h] < p {
      BelowShrinks(k.prio, p, h);
      if AwaitsSome(k, h) {
        DonationBounds(PrioritySet(k, h, p), k.goal[h].sema, p);
      }
    }
  }

  /** Whoever is raised is on the way. */
  lemma {:induction false} RaisedOnWay(k: Kernel, l: SemaId, p: int, t: Tid)
    requires Walk(k, l, p).Some? && t in k.prio && Key(Walk(k, l, p).value.prio, t) != k.prio[t]
    ensures OnWay(k, l, p, t)
    decreases |Below(k.prio, p)|
  {
    hide StableSort, Higher, Follows;
    DonationBounds(k, l, p);
    var h := k.holder[l].value;
    if t == h {
      assert WayTo(k, l, p, t, [l]);
    } else {
      var k1, l2 := PrioritySet(k, h, p), k.goal[h].sema;
      BelowShrinks(k.prio, p, h);
      RaisedOnWay(k1, l2, p, t);
      var path :| WayTo(k1, l2, p, t, path);
      LongerWay(k, l, p, t, path);
    }
  }

  lemma LongerWay(k: Kernel, l: SemaId, p: int, t: Tid, path: seq<SemaId>)
    requires Held(k, l) && k.prio[k.holder[l].value] < p && AwaitsSome(k, k.holder[l].value) && t != k.holder[l].value
    requires var h := k.holder[l].value; WayTo(PrioritySet(k, h, p), k.goal[h].sema, p, t, path)
    ensures WayTo(k, l, p, t, [l] + path) && OnWay(k, l, p, t)
  {
    hide StableSort, Higher;
    var h, longer := k.holder[l].value, [l] + path;
    var k1 := PrioritySet(k, h, p);
    forall i | 0 <= i < |longer| - 1 ensures Follows(k, p, longer[i], longer[i + 1]) {
      if i > 0 {
        assert Follows(k1, p, path[i - 1], path[i]);
      }
    }
    assert WayTo(k, l, p, t, longer);
  }

  /** Whoever is on the way is raised; a way that comes back to a lock of the raised
      holder can be cut short. */
  lemma {:induction false} OnWayRaised(k: Kernel, l: SemaId, p: int, t: Tid, path: seq<SemaId>)
    requires Walk(k, l, p).Some? && WayTo(k, l, p, t, path)
    ensures t in Walk(k, l, p).value.prio && Walk(k, l, p).value.prio[t] == p
    decreases |Below(k.prio, p)|, |path|
  {
    DonationBounds(k, l, p);
    var h := k.holder[l].value;
    if |path| > 1 && t != h {
      assert Follows(k, p, path[0], path[1]);
      var rest, k1 := path[1..], PrioritySet(k, h, p);
      BelowShrinks(k.prio, p, h);
      forall i | 0 <= i < |rest| - 1 ensures Follows(k, p, rest[i], rest[i + 1]) {
        assert Follows(k, p, path[i + 1], path[i + 2]);
      }
      if Path(k1, p, rest) {
        assert WayTo(k1, path[1], p, t, rest);
        OnWayRaised(k1, path[1], p, t, rest);
      } else {
        var j :| 0 <= j < |rest| - 1 && !Follows(k1, p, rest[j], rest[j + 1]);
        assert Follows(k, p, rest[j], rest[j + 1]);
        var short := [l] + rest[j + 1..];
        forall i | 0 <= i < |short| - 1 ensures Follows(k, p, short[i], short[i + 1]) {
          if i > 0 {
            assert Follows(k, p, rest[j + i], rest[j + i + 1]);
          }
        }
        assert WayTo(k, l, p, t, short);
        OnWayRaised(k, l, p, t, short);
      }
    }
  }

  lemma DonationRaises(k: Kernel, l: SemaId, p: int)
    requires Walk(k, l, p).Some?
    ensures RaisedTo(k, Walk(k, l, p).value, l, p)
  {
    DonationBounds(k, l, p);
    var k' := Walk(k, l, p).value;
    hide Walk, WayTo;
    forall t | t in k.prio ensures k'.prio[t] == if OnWay(k, l, p, t) then p else k.prio[t] {
      if OnWay(k, l, p, t) {
        var path :| WayTo(k, l, p, t, path);
        OnWayRaised(k, l, p, t, path);
      } else if k'.prio[t] != k.prio[t] {
        RaisedOnWay(k, l, p, t);
      }
    }
  }

  lemma {:induction false} DonationKeeps(k: Kernel, l: SemaId, p: int)
    requires Inv(k) && Walk(k, l, p).Some?
    ensures Inv(Walk(k, l, p).value)
    decreases |Below(k.prio, p)|
  {
    var h := k.holder[l].value;
    if k.prio[h] < p {
      BelowShrinks(k.prio, p, h);
      PrioritySetKeeps(k, h, p);
      hide Inv;
      if AwaitsSome(k, h) {
        DonationKeeps(PrioritySet(k, h, p), k.goal[h].sema, p);
      }
    }
  }

  // ----- lock_acquire -----

  /** The running thread is about to wait for `l`: `plock_acq` is set. */
  function Asking(k: Kernel, l: SemaId): Kernel
  {
    k.(goal := k.goal[k.current := Wants(l)])
  }

  /** Calling lock_acquire on `l` follows no NULL holder. */
  ghost predicate MayAcquire(k: Kernel, l: SemaId)
  {
    && l in k.holder && l in k.value && l in k.waiters && k.current in k.prio
    && (k.holder[l].Some? ==> WalkSafe(Asking(k, l), l, k.prio[k.current]))
  }

  /** lock_acquire, up to where its thread blocks or holds the lock, when no
      other thread runs in between. */
  ghost function Acquired(k: Kernel, l: SemaId): Kernel
    requires MayAcquire(k, l)
  {
    if k.holder[l].Some? then
      SafeWalks(Asking(k, l), l, k.prio[k.current]);
      DownRound(Walk(Asking(k, l), l, k.prio[k.current]).value, l)
    else DownRound(k, l)
  }

  /** If every other waiter had donated before, every waiter has afterwards. */
  lemma AcquireDonates(k: Kernel, l: SemaId)
    requires k.current in k.prio && AllHeld(Asking(k, l)) && Held(Asking(k, l), l)
    requires forall t, l' :: Awaits(k, t, l') && t != k.current ==> Held(k, l') && EdgeOk(k, t, l')
    ensures var r := Walk(Asking(k, l), l, k.prio[k.current]); r.Some? && AllHeld(r.value) && AllEdgesOk(r.value)
  {
    var k0 := Asking(k, l);
    forall t, l' | Awaits(k0, t, l') ensures EdgeOk(k0, t, l') || (l' == l && Key(k0.prio, t) <= k.prio[k.current]) {
      if t != k.current {
        assert Awaits(k, t, l');
      }
    }
    DonationRepairs(k0, l, k.prio[k.current]);
  }

  lemma AskingKeeps(k: Kernel, l: SemaId)
    requires Inv(k) && l in k.waiters && k.current != k.idle && k.goal[k.current] == NoGoal
    ensures Inv(Asking(k, l))
  {
    var c, k0 := k.current, Asking(k, l);
    hide SleepOk, ReadyOk, Locks;
    NotAsleep(k.status, k.goal, k.wakeup, k.sleeping, k.idle, c);
    SleepGoal(k.status, k.goal, k.wakeup, k.sleeping, k.idle, c, Running, Wants(l));
    assert k.status[c := Running] == k.status;
    forall s | s in k.waiters ensures Pending(k.status, k.goal, s) == Pending(k0.status, k0.goal, s) {
    }
  }

  lemma AcquiredKeeps(k: Kernel, l: SemaId)
    requires Inv(k) && MayAcquire(k, l) && k.current != k.idle && k.goal[k.current] == NoGoal
    ensures Inv(Acquired(k, l))
  {
    if k.holder[l].Some? {
      var k0 := Asking(k, l);
      AskingKeeps(k, l);
      SafeWalks(k0, l, k.prio[k.current]);
      DonationKeeps(k0, l, k.prio[k.current]);
      DownRoundKeeps(Walk(k0, l, k.prio[k.current]).value, l);
    } else {
      DownRoundKeeps(k, l);
    }
  }
}
