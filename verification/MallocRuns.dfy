/**
 Whole runs of malloc and free (src/threads/malloc.c): what every reachable heap
 satisfies, and that nothing is lost.  A realloc is a malloc and a free.
 */
module MallocRuns {
  import opened Bitmaps
  import opened Malloc
  import opened MallocSteps

  datatype Act =
    | TakeBlock(desc: nat, size: nat)
    | TakeFromNewArena(desc: nat, size: nat, page: nat)
    | TakeBig(size: nat, page: nat, pages: nat)
    | GiveBlock(desc: nat, page: nat, index: nat)
    | GiveLastBlock(desc: nat, page: nat, index: nat, list: seq<nat>)
    | GiveBig(page: nat)

  ghost predicate Enabled(h: Heap, act: Act)
  {
    |h.free| == DESC_CNT && match act
    case TakeBlock(d, size) => d < DESC_CNT && size <= BlockSize(d) && h.free[d] != []
    case TakeFromNewArena(d, size, p) => d < DESC_CNT && size <= BlockSize(d) && h.free[d] == [] && Group(h.used, p, 1, false)
    case TakeBig(size, p, n) => n > 0 && size + HEADER <= PGSIZE * n && Group(h.used, p, n, false)
    case GiveBlock(d, p, i) =>
      IsBlock(h.arenas, d, p, i) && BlockAt(p, d, i) !in h.free[d] && h.arenas[p].freeCnt + 1 < PerArena(d)
    case GiveLastBlock(d, p, i, list) => IsBlock(h.arenas, d, p, i) && BlockAt(p, d, i) !in h.free[d] &&
      h.arenas[p].freeCnt + 1 == PerArena(d) && p < |h.used| && WithoutBlocks([BlockAt(p, d, i)] + h.free[d], list, d, p)
    case GiveBig(p) => p in h.arenas && h.arenas[p].Big? && p + Pages(h.arenas[p]) <= |h.used|
  }

  ghost function Next(h: Heap, act: Act): Heap
    requires Enabled(h, act)
  {
    match act
    case TakeBlock(d, size) => Popped(h, d, size)
    case TakeFromNewArena(d, size, p) => Popped(Opened(h, d, p), d, size)
    case TakeBig(size, p, n) => BigTaken(h, p, n, size)
    case GiveBlock(d, p, i) => Pushed(h, d, BlockAt(p, d, i))
    case GiveLastBlock(d, p, i, list) => Closed(Pushed(h, d, BlockAt(p, d, i)), d, p, list)
    case GiveBig(p) => BigGiven(h, p)
  }

  ghost predicate Sound(h: Heap)
  {
    Inv(h) && NoneIdle(h.arenas)
  }

  /** Every step keeps the heap sound and leaves alone what others hold. */
  lemma NextKeeps(h: Heap, act: Act)
    requires Sound(h) && Enabled(h, act)
    ensures Sound(Next(h, act)) && Next(h, act).base == h.base
  {
    match act
    case TakeBlock(d, size) => PoppedKeeps(h, d, size);
    case TakeFromNewArena(d, size, p) => NewArenaKeeps(h, d, size, p);
    case TakeBig(size, p, n) => BigTakenKeeps(h, p, n, size);
    case GiveBlock(d, p, i) => GiveKeeps(h, d, p, i);
    case GiveLastBlock(d, p, i, list) => GiveLastKeeps(h, d, p, i, list);
    case GiveBig(p) => BigGivenKeeps(h, p);
  }

  lemma NewArenaKeeps(h: Heap, d: nat, size: nat, p: nat)
    requires Sound(h) && Enabled(h, TakeFromNewArena(d, size, p))
    ensures Sound(Popped(Opened(h, d, p), d, size))
  {
    hide Inv, NoneIdle, NoneIdleBut;
    OpenedKeeps(h, d, p);
    BlockInPage(p, d, 0);
    assert Opened(h, d, p).free[d][0] == AllBlocks(p, d)[0] == BlockAt(p, d, 0);
    PoppedKeeps(Opened(h, d, p), d, size);
  }

  lemma GiveKeeps(h: Heap, d: nat, p: nat, i: nat)
    requires Sound(h) && Enabled(h, GiveBlock(d, p, i))
    ensures Sound(Pushed(h, d, BlockAt(p, d, i)))
  {
    PushedKeeps(h, d, p, i);
    PushedForm(h, d, p, i);
  }

  lemma GiveLastKeeps(h: Heap, d: nat, p: nat, i: nat, list: seq<nat>)
    requires Sound(h) && Enabled(h, GiveLastBlock(d, p, i, list))
    ensures Sound(Closed(Pushed(h, d, BlockAt(p, d, i)), d, p, list))
  {
    PushedKeeps(h, d, p, i);
    PushedForm(h, d, p, i);
    BlockInPage(p, d, i);
    var h1 := Pushed(h, d, BlockAt(p, d, i));
    assert h1.arenas[p] == Small(d, PerArena(d));
    ClosedKeeps(h1, d, p, list);
  }

  ghost predicate StepTo(h: Heap, h': Heap)
  {
    exists act :: Enabled(h, act) && h' == Next(h, act)
  }

  /** A run from a heap without arenas, over the pages that others left free. */
  ghost predicate Run(trace: seq<Heap>, base: seq<bool>)
  {
    trace != [] && trace[0] == Heap(base, base, map[], seq(DESC_CNT, _ => []), map[]) &&
    forall i :: 0 <= i < |trace| - 1 ==> StepTo(trace[i], trace[i + 1])
  }

  lemma FreshHeapSound(base: seq<bool>)
    ensures Sound(Heap(base, base, map[], seq(DESC_CNT, _ => []), map[]))
  {
  }

  /** Every heap of every run is sound. */
  lemma {:induction false} RunKeeps(trace: seq<Heap>, base: seq<bool>, n: nat)
    requires Run(trace, base) && n < |trace|
    ensures Sound(trace[n]) && trace[n].base == base
  {
    hide Sound, Next, Enabled;
    if n == 0 {
      FreshHeapSound(base);
    } else {
      RunKeeps(trace, base, n - 1);
      assert StepTo(trace[n - 1], trace[n]);
      var act :| Enabled(trace[n - 1], act) && trace[n] == Next(trace[n - 1], act);
      NextKeeps(trace[n - 1], act);
    }
  }

  /** In every run: live blocks never overlap, and once nothing is live every page is back. */
  lemma NothingLost(trace: seq<Heap>, base: seq<bool>, n: nat)
    requires Run(trace, base) && n < |trace|
    ensures forall a, b :: a in trace[n].live && b in trace[n].live && a != b ==>
      a + SizeOf(trace[n].arenas, a) <= b || b + SizeOf(trace[n].arenas, b) <= a
    ensures trace[n].live == map[] ==> trace[n].used == base && trace[n].arenas == map[]
  {
    RunKeeps(trace, base, n);
    hide Run, Inv, NoneIdle;
    forall a, b | a in trace[n].live && b in trace[n].live && a != b
      ensures a + SizeOf(trace[n].arenas, a) <= b || b + SizeOf(trace[n].arenas, b) <= a
    {
      LiveDisjoint(trace[n], a, b);
    }
    if trace[n].live == map[] {
      AllFreedRestores(trace[n]);
    }
  }
}
