/**
 malloc, free and realloc (src/threads/malloc.c) over palloc_get_multiple and
 palloc_free_multiple (src/threads/palloc.c).
 */
module Allocator {
  import opened Bitmaps
  import opened Storage
  import opened Sequences
  import opened Malloc
  import opened MallocSteps
  import MallocRuns

  const FREED: Byte := 0xcc

  // ----- memory -----

  /** memset (…, 0xcc, n). */
  function Cleared(mem: seq<Byte>, at: nat, n: nat): (r: seq<Byte>)
    requires at + n <= |mem|
    ensures |r| == |mem|
  {
    mem[..at] + seq(n, _ => FREED) + mem[at + n..]
  }

  /** memcpy inside memory. */
  function Copied(mem: seq<Byte>, to: nat, from: nat, n: nat): (r: seq<Byte>)
    requires to + n <= |mem| && from + n <= |mem|
    ensures |r| == |mem|
  {
    mem[..to] + mem[from..from + n] + mem[to + n..]
  }

  /** The `n` bytes at `at` are the same in both. */
  ghost predicate Same(mem: seq<Byte>, mem': seq<Byte>, at: nat, n: nat)
  {
    at + n <= |mem| == |mem'| && mem'[at..at + n] == mem[at..at + n]
  }

  lemma ClearedElsewhere(mem: seq<Byte>, at: nat, n: nat, b: nat, k: nat)
    requires at + n <= |mem| && b + k <= |mem| && (b + k <= at || at + n <= b)
    ensures Same(mem, Cleared(mem, at, n), b, k)
  {
    var l, r := mem[b..b + k], Cleared(mem, at, n)[b..b + k];
    assert forall i :: 0 <= i < k ==> l[i] == r[i];
  }

  /** The `n` bytes at `at` are the pattern of freed memory. */
  ghost predicate Poisoned(mem: seq<Byte>, at: nat, n: nat)
  {
    at + n <= |mem| && forall i :: at <= i < at + n ==> mem[i] == 0xcc
  }

  lemma ClearedPoisons(mem: seq<Byte>, at: nat, n: nat, b: nat, k: nat)
    requires at <= b && b + k <= at + n <= |mem|
    ensures Poisoned(Cleared(mem, at, n), b, k)
  {
  }

  lemma CopiedElsewhere(mem: seq<Byte>, to: nat, from: nat, n: nat, b: nat, k: nat)
    requires to + n <= |mem| && from + n <= |mem| && b + k <= |mem| && (b + k <= to || to + n <= b)
    ensures Same(mem, Copied(mem, to, from, n), b, k)
  {
    var l, r := mem[b..b + k], Copied(mem, to, from, n)[b..b + k];
    assert forall i :: 0 <= i < k ==> l[i] == r[i];
  }

  lemma SameTrans(m: seq<Byte>, m': seq<Byte>, m'': seq<Byte>, at: nat, n: nat)
    requires Same(m, m', at, n) && Same(m', m'', at, n)
    ensures Same(m, m'', at, n)
  {
  }

  /** Every live block of `h` has its bytes. */
  ghost predicate BytesKept(h: Heap, mem: seq<Byte>, mem': seq<Byte>)
  {
    forall a :: a in h.live ==> Same(mem, mem', a, SizeOf(h.arenas, a))
  }

  ghost predicate Whole(h: Heap, mem: seq<Byte>)
  {
    Inv(h) && NoneIdle(h.arenas) && |mem| == PGSIZE * |h.used|
  }

  /** Which descriptor serves a request: the smallest that is large enough. */
  function DescFor(size: nat): (d: nat)
    ensures d <= DESC_CNT && (d < DESC_CNT ==> size <= BlockSize(d)) && (d == DESC_CNT <==> size > 1024)
    ensures forall e :: 0 <= e < d && e < DESC_CNT ==> BlockSize(e) < size
  {
    if size <= 16 then 0 else if size <= 32 then 1 else if size <= 64 then 2 else if size <= 128 then 3
    else if size <= 256 then 4 else if size <= 512 then 5 else if size <= 1024 then 6 else 7
  }

  function PageCount(size: nat): nat
  {
    (size + HEADER + PGSIZE - 1) / PGSIZE
  }

  /** `n` is the least number of pages that hold `size` bytes and a header. */
  predicate LeastPages(size: nat, n: nat)
  {
    size + 12 <= 4096 * n && forall m :: 0 <= m < n ==> 4096 * m < size + 12
  }

  lemma PageCountIsLeast(size: nat)
    ensures LeastPages(size, PageCount(size)) && PageCount(size) > 0
    ensures forall n: nat :: LeastPages(size, n) ==> n == PageCount(size)
  {
    var n := PageCount(size);
    assert 4096 * (n - 1) < size + 12 <= 4096 * n;
    forall m: nat | LeastPages(size, m) ensures m == n {
      assert m < n ==> 4096 * m <= 4096 * (n - 1);
    }
  }

  /** A request can be met: there is a block of its size or a page to cut into such, or
      enough pages in a row. */
  ghost predicate Available(h: Heap, size: nat)
    requires |h.free| == DESC_CNT
  {
    size > 0 &&
    if size <= 1024 then h.free[DescFor(size)] != [] || exists p :: Group(h.used, p, 1, false)
    else exists n, p :: LeastPages(size, n) && Group(h.used, p, n, false)
  }

  /** The first group of `n` free pages is taken, and no other. */
  ghost predicate TakesPages(used: seq<bool>, used': seq<bool>, p: nat, n: nat)
  {
    && Group(used, p, n, false) && (forall q: nat :: q < p ==> !Group(used, q, n, false))
    && |used'| == |used| && forall q :: 0 <= q < |used| ==> used'[q] == (used[q] || p <= q < p + n)
  }

  ghost predicate TakesBig(h: Heap, h': Heap, size: nat, addr: nat)
  {
    var p := addr / 4096;
    && addr == 4096 * p + 12 && h'.free == h.free && p !in h.arenas
    && exists n :: LeastPages(size, n) && TakesPages(h.used, h'.used, p, n) && h'.arenas == h.arenas[p := Big(n)]
  }

  /** Where the block at `addr` comes from: the front of its free list; if that is
      empty, the start of a new page, whose other blocks are free now; or pages
      of its own. */
  ghost predicate Granted(h: Heap, h': Heap, size: nat, addr: nat)
    requires |h.free| == |h'.free| == DESC_CNT
  {
    var d, p := DescFor(size), addr / 4096;
    if d == DESC_CNT then TakesBig(h, h', size, addr)
    else if h.free[d] != [] then
      addr == h.free[d][0] && h'.used == h.used && h'.free == h.free[d := h.free[d][1..]] && h'.arenas.Keys == h.arenas.Keys
    else
      && addr == 4096 * p + 12 && TakesPages(h.used, h'.used, p, 1) && h'.arenas.Keys == h.arenas.Keys + {p}
      && h'.free == h.free[d := h'.free[d]] && |h'.free[d]| == (4096 - 12) / BlockSize(d) - 1
      && forall i :: 0 <= i < |h'.free[d]| ==> h'.free[d][i] == addr + (i + 1) * BlockSize(d)
  }

  /** The blocks of a list that are not in page `p`, in order. */
  function OffPage(list: seq<nat>, p: nat): seq<nat>
  {
    if list == [] then [] else (if list[0] / 4096 == p then [] else [list[0]]) + OffPage(list[1..], p)
  }

  /** Pages `p` up to `p + n` are free again, and no other bit changes. */
  ghost predicate GivesPages(used: seq<bool>, used': seq<bool>, p: nat, n: nat)
  {
    |used'| == |used| && forall q :: 0 <= q < |used| ==> used'[q] == (used[q] && !(p <= q < p + n))
  }

  /** Where the block at `addr` goes: to the front of its free list, unless no other
      block of its page is in use; then the page goes back, and its blocks leave
      the list.  A big block's pages go back. */
  ghost predicate Returned(h: Heap, h': Heap, addr: nat)
    requires |h.free| == |h'.free| == DESC_CNT
  {
    var p := addr / 4096;
    && p in h.arenas
    && if h.arenas[p].Big? then
         h'.free == h.free && h'.arenas == h.arenas - {p} && GivesPages(h.used, h'.used, p, h.arenas[p].pages)
       else
         var d, c := h.arenas[p].desc, h.arenas[p].freeCnt + 1;
         && d < DESC_CNT
         && if c < (4096 - 12) / BlockSize(d) then
              h'.used == h.used && h'.arenas == h.arenas[p := Small(d, c)] && h'.free == h.free[d := [addr] + h.free[d]]
            else
              && h'.arenas == h.arenas - {p} && GivesPages(h.used, h'.used, p, 1)
              && h'.free == h.free[d := OffPage(h.free[d], p)]
  }

  class Blocks {
    var used: seq<bool>              // the kernel pool's bitmap
    ghost var base: seq<bool>        // what others have taken from it
    var arenas: map<nat, Arena>
    var free: seq<seq<nat>>
    ghost var live: map<nat, nat>
    var mem: seq<Byte>

    ghost function State(): Heap
      reads this
    {
      Heap(used, base, arenas, free, live)
    }

    ghost predicate Valid()
      reads this
    {
      Whole(State(), mem)
    }

    /** The loop over descriptors. */
    method FindDesc(size: nat) returns (d: nat)
      ensures d == DescFor(size)
    {
      d := 0;
      while d < DESC_CNT && BlockSize(d) < size
        invariant d <= DESC_CNT && forall e :: 0 <= e < d ==> BlockSize(e) < size
      {
        d := d + 1;
      }
      Descriptor(size, d);
    }

    /** A new arena with all its blocks pushed on the free list. */
    method OpenArena(d: nat, p: nat)
      requires Inv(State()) && NoneIdle(arenas) && d < DESC_CNT && Group(used, p, 1, false)
      modifies this`used, this`arenas, this`free
      ensures State() == Opened(old(State()), d, p) && Inv(State()) && NoneIdleBut(arenas, p) && p !in old(arenas)
    {
      hide Inv, NoneIdle, NoneIdleBut, SetRange, PerArena, BlockAt;
      FreeLists(State());
      OpenedKeeps(State(), d, p);
      ghost var list, all := free[d], AllBlocks(p, d);
      used := SetRange(used, p, 1, true);
      arenas := arenas[p := Small(d, PerArena(d))];
      assert list + all[..0] == list;
      for i := 0 to PerArena(d)
        modifies this`free
        invariant free == old(free)[d := list + all[..i]]
      {
        assert list + all[..i + 1] == list + all[..i] + [all[i]];
        free := free[d := free[d] + [BlockAt(p, d, i)]];
      }
      assert all[..PerArena(d)] == all;
    }

    /** Takes the first free block. */
    method Pop(d: nat, size: nat) returns (addr: nat)
      requires Inv(State()) && d < DESC_CNT && free[d] != [] && size <= BlockSize(d)
      requires NoneIdleBut(arenas, free[d][0] / PGSIZE)
      modifies this`arenas, this`free, this`live
      ensures addr == old(free)[d][0] && State() == Popped(old(State()), d, size) && Inv(State()) && NoneIdle(arenas)
      ensures addr !in old(live) && SizeOf(arenas, addr) == BlockSize(d)
    {
      PoppedKeeps(State(), d, size);
      ghost var q, i := FirstFree(State(), d);
      addr := free[d][0];
      free := free[d := free[d][1..]];
      var p := addr / PGSIZE;
      arenas := arenas[p := Small(d, arenas[p].freeCnt - 1)];
      live := live[addr := size];
    }

    method AllocBig(size: nat) returns (r: Option<nat>)
      requires Inv(State()) && NoneIdle(arenas) && size > 0
      modifies this`used, this`arenas, this`live
      ensures r.Some? <==> exists n, p :: LeastPages(size, n) && Group(old(used), p, n, false)
      ensures r.None? ==> State() == old(State())
      ensures r.Some? ==> TakesBig(old(State()), State(), size, r.value) && MallocRuns.StepTo(old(State()), State())
      ensures r.Some? ==> Inv(State()) && NoneIdle(arenas) && r.value !in old(live) && live == old(live)[r.value := size]
      ensures r.Some? ==> size <= SizeOf(arenas, r.value) && Similar(old(State()), State()) && |used| == |old(used)|
    {
      hide Inv, NoneIdle, SizeOf, SetRange, PageCount, LeastPages, MallocRuns.StepTo;
      var n := PageCount(size);
      PageCountIsLeast(size);
      HoldsSize(size, n);
      var page := Scan(used, 0, n, false);
      if page.None? {
        return None;
      }
      var p := page.value;
      BigTakenKeeps(State(), p, n, size);
      BigTakes(State(), p, n, size);
      BigIsStep(State(), p, n, size);
      used := SetRange(used, p, n, true);
      arenas := arenas[p := Big(n)];
      live := live[PGSIZE * p + HEADER := size];
      return Some(PGSIZE * p + HEADER);
    }

    /** malloc: a new block of at least the size asked for, unless none is to be had. */
    method Alloc(size: nat) returns (r: Option<nat>)
      requires Valid() && size + HEADER + PGSIZE - 1 < 0x1_0000_0000
      modifies this`used, this`arenas, this`free, this`live
      ensures Valid() && (r.Some? <==> old(Available(State(), size)))
      ensures r.None? ==> State() == old(State())
      ensures r.Some? ==> Granted(old(State()), State(), size, r.value) && MallocRuns.StepTo(old(State()), State())
      ensures r.Some? ==> r.value !in old(live) && live == old(live)[r.value := size] && size <= SizeOf(arenas, r.value)
      ensures forall a :: a in old(live) ==> SizeOf(arenas, a) == SizeOf(old(arenas), a)
    {
      hide Inv, NoneIdle, NoneIdleBut, Similar, SizeOf, SetRange, Popped, BlockSize, Opened, PageCount, Granted, TakesBig,
           LeastPages, MallocRuns.StepTo;
      FreeLists(State());
      if size == 0 {
        return None;
      }
      ghost var h := State();
      SimilarSelf(h);
      var d := FindDesc(size);
      if d == DESC_CNT {
        r := AllocBig(size);
        if r.Some? {
          BigGranted(h, State(), size, r.value);
        }
        SizesKept(h, State());
        return;
      }
      if free[d] == [] {
        var page := Scan(used, 0, 1, false);
        if page.None? {
          return None;
        }
        OpenArena(d, page.value);
        OpenedFirst(h, d, page.value);
        OpenedLiveSame(h, d, page.value);
      } else {
        IdleBut(arenas, free[d][0] / PGSIZE);
      }
      ghost var h1 := State();
      var addr := Pop(d, size);
      if h.free[d] != [] {
        FrontGranted(h, size);
        FrontIsStep(h, d, size);
      } else {
        CutGranted(h, size, Scan(h.used, 0, 1, false).value);
        CutIsStep(h, d, size, Scan(h.used, 0, 1, false).value);
      }
      PoppedSimilar(h, h1, d, size);
      PoppedLive(h1, d, size);
      SizesKept(h, State());
      r := Some(addr);
    }

    /** Removes an idle arena's blocks from the free list and gives its page back. */
    method CloseArena(d: nat, p: nat)
      requires Inv(State()) && NoneIdleBut(arenas, p) && d < DESC_CNT && p in arenas
      requires arenas[p] == Small(d, PerArena(d))
      requires |mem| == PGSIZE * |used| && PGSIZE * p + PGSIZE <= |mem|
      modifies this`used, this`arenas, this`free, this`mem
      ensures Inv(State()) && NoneIdle(arenas) && arenas == old(arenas) - {p} && |used| == |old(used)|
      ensures mem == Cleared(old(mem), PGSIZE * p, PGSIZE) && GivesPages(old(used), used, p, 1)
      ensures free == old(free)[d := Sans(old(free)[d], AllBlocks(p, d))]
      ensures State() == Closed(old(State()), d, p, free[d]) && WithoutBlocks(old(free)[d], free[d], d, p)
    {
      hide Inv, NoneIdle, NoneIdleBut, SetRange, PerArena, BlockAt, Cleared, Sans, GivesPages;
      FreeLists(State());
      ghost var list, all := free[d], AllBlocks(p, d);
      FreeDistinct(State(), d);
      assert all[..0] == [];
      SansNothing(list);
      PageGiven(State(), p);
      for i := 0 to PerArena(d)
        modifies this`free
        invariant |free| == DESC_CNT && free == old(free)[d := free[d]]
        invariant free[d] == Sans(list, all[..i])
        invariant Distinct(free[d]) && forall a :: a in free[d] <==> a in list && a !in all[..i]
      {
        WithoutMembers(free[d], BlockAt(p, d, i));
        SansMore(list, all[..i], all[i]);
        assert all[..i + 1] == all[..i] + [all[i]];
        free := free[d := Without(free[d], BlockAt(p, d, i))];
      }
      assert all[..PerArena(d)] == all;
      ClosedKeeps(old(State()), d, p, free[d]);
      mem := Cleared(mem, PGSIZE * p, PGSIZE);
      used := SetRange(used, p, 1, false);
      arenas := arenas - {p};
    }

    /** The small-block branch of free. */
    method FreeSmall(addr: nat)
      requires Valid() && addr in live && addr / PGSIZE in arenas && arenas[addr / PGSIZE].Small?
      modifies this`used, this`arenas, this`free, this`live, this`mem
      ensures Valid() && live == old(live) - {addr} && BytesKept(State(), old(mem), mem)
      ensures Similar(old(State()), State()) && Returned(old(State()), State(), addr)
      ensures MallocRuns.StepTo(old(State()), State())
      ensures Poisoned(mem, addr, SizeOf(old(arenas), addr))
    {
      hide Inv, NoneIdle, NoneIdleBut, SizeOf, SetRange, BlockAt, Cleared, Same, Pushed, Sans, OffPage, GivesPages, Poisoned,
           MallocRuns.StepTo, WithoutBlocks, Closed;
      ghost var h0, m0 := State(), mem;
      ghost var q, i := LiveIndex(h0, addr);
      var p := addr / PGSIZE;
      var d := arenas[p].desc;
      FreeLists(h0);
      SmallSize(h0, addr);
      PushedKeeps(h0, d, p, i);
      PushedParts(h0, d, addr);
      ClearedPoisons(mem, addr, BlockSize(d), addr, BlockSize(d));
      BlockInPage(p, d, i);
      ClearedPoisons(Cleared(mem, addr, BlockSize(d)), PGSIZE * p, PGSIZE, addr, BlockSize(d));
      mem := Cleared(mem, addr, BlockSize(d));
      live := live - {addr};
      free := free[d := [addr] + free[d]];
      arenas := arenas[p := Small(d, arenas[p].freeCnt + 1)];
      ghost var h1, m1 := State(), mem;
      PushedBytes(h0, h1, m0, addr);
      assert arenas[p].freeCnt >= PerArena(d) ==> arenas[p] == Small(d, PerArena(d)) by {
        CountBound(h1, p);
      }
      if arenas[p].freeCnt >= PerArena(d) {
        CloseArena(d, p);
        ClosedBytes(h1, State(), m0, m1, p);
        ClosedReturned(h0, h1, State(), d, addr);
        LastIsStep(h0, d, p, i, free[d]);
      } else {
        BusyAgain(arenas, p);
        GiveIsStep(h0, d, p, i);
      }
    }

    /** The big-block branch of free. */
    method FreeBig(addr: nat)
      requires Valid() && addr in live && addr / PGSIZE in arenas && arenas[addr / PGSIZE].Big?
      modifies this`used, this`arenas, this`live, this`mem
      ensures Valid() && live == old(live) - {addr} && BytesKept(State(), old(mem), mem)
      ensures Similar(old(State()), State()) && Returned(old(State()), State(), addr)
      ensures MallocRuns.StepTo(old(State()), State())
      ensures Poisoned(mem, addr, SizeOf(old(arenas), addr))
    {
      hide Inv, NoneIdle, SizeOf, SetRange, Cleared, Same, GivesPages, Poisoned, MallocRuns.StepTo;
      FreeLists(State());
      PageGiven(State(), addr / PGSIZE);
      ghost var h0, m0 := State(), mem;
      ghost var q, i := LiveIndex(h0, addr);
      var p := addr / PGSIZE;
      var n := arenas[p].pages;
      PagesInRange(h0, p);
      BigGivenKeeps(h0, p);
      GiveBigIsStep(h0, p, addr);
      LiveInArena(h0, addr);
      ClearedPoisons(mem, PGSIZE * p, PGSIZE * n, addr, SizeOf(arenas, addr));
      mem := Cleared(mem, PGSIZE * p, PGSIZE * n);
      used := SetRange(used, p, n, false);
      arenas := arenas - {p};
      live := live - {addr};
      GivenBytes(h0, State(), m0, p, addr);
    }

    /** free: the block is gone, and no other block changes. */
    method Free(ptr: Option<nat>)
      requires Valid() && (ptr.Some? ==> ptr.value in live)
      modifies this`used, this`arenas, this`free, this`live, this`mem
      ensures Valid() && BytesKept(State(), old(mem), mem) && Similar(old(State()), State())
      ensures live == if ptr.Some? then old(live) - {ptr.value} else old(live)
      ensures ptr.None? ==> State() == old(State())
      ensures ptr.Some? ==> Returned(old(State()), State(), ptr.value) && MallocRuns.StepTo(old(State()), State())
      ensures ptr.Some? ==> Poisoned(mem, ptr.value, SizeOf(old(arenas), ptr.value))
    {
      hide Returned, Poisoned, MallocRuns.StepTo;
      if ptr.None? {
        AllSame(State(), mem);
        return;
      }
      ghost var p, i := LiveIndex(State(), ptr.value);
      if arenas[ptr.value / PGSIZE].Small? {
        FreeSmall(ptr.value);
      } else {
        FreeBig(ptr.value);
      }
    }

    /** block_size. */
    method UsableSize(addr: nat) returns (n: nat)
      requires Valid() && addr in live
      ensures n == SizeOf(arenas, addr) && live[addr] <= n && addr + n <= |mem|
    {
      ghost var q, i := LiveIndex(State(), addr);
      LiveInArena(State(), addr);
      var a := arenas[addr / PGSIZE];
      if a.Small? {
        SmallSize(State(), addr);
        n := BlockSize(a.desc);
      } else {
        BigStart(addr / PGSIZE);
        n := PGSIZE * a.pages - addr % PGSIZE;
      }
    }

    /** realloc: on success the new block starts with what the old one held, as
        far as both reach, and the old one is gone; on failure nothing changed. */
    method Realloc(ptr: Option<nat>, size: nat) returns (r: Option<nat>)
      requires Valid() && (ptr.Some? ==> ptr.value in live) && size + HEADER + PGSIZE - 1 < 0x1_0000_0000
      modifies this`used, this`arenas, this`free, this`live, this`mem
      ensures Valid() && (r.Some? <==> old(Available(State(), size)))
      ensures size == 0 ==> live == if ptr.Some? then old(live) - {ptr.value} else old(live)
      ensures size > 0 && r.None? ==> State() == old(State()) && mem == old(mem)
      ensures r.Some? ==> r.value !in old(live) && size <= SizeOf(arenas, r.value)
      ensures r.Some? ==> live == (if ptr.Some? then old(live) - {ptr.value} else old(live))[r.value := size]
      ensures r.Some? && ptr.Some? ==> var n := Min(size, SizeOf(old(arenas), ptr.value));
        r.value + n <= |mem| && ptr.value + n <= |old(mem)| && mem[r.value..r.value + n] == old(mem)[ptr.value..ptr.value + n]
      ensures forall a :: a in old(live) && a in live ==> Same(old(mem), mem, a, SizeOf(old(arenas), a))
    {
      hide Inv, NoneIdle, SizeOf, Similar, Same, BytesKept, Copied, Available, Granted, Returned, Poisoned, MallocRuns.StepTo;
      ghost var h0, m0 := State(), mem;
      AllSame(h0, mem);
      if size == 0 {
        NothingToMeet(h0);
        Free(ptr);
        KeptBytes(h0, State(), m0, mem);
        return None;
      }
      r := Alloc(size);
      ghost var h1 := State();
      if ptr.Some? && r.Some? {
        var oldSize := UsableSize(ptr.value);
        var n := Min(size, oldSize);
        LiveInArena(h1, r.value);
        mem := Copied(mem, r.value, ptr.value, n);
        CopiedBytes(h1, m0, r.value, ptr.value, n);
        ghost var m1 := mem;
        Free(ptr);
        MovedBytes(h0, h1, State(), m0, m1, mem, r.value, ptr.value, n);
      } else {
        SameEverywhere(h0, m0);
      }
    }
  }

  lemma BigGranted(h: Heap, h': Heap, size: nat, addr: nat)
    requires |h.free| == |h'.free| == DESC_CNT && DescFor(size) == DESC_CNT && TakesBig(h, h', size, addr)
    ensures Granted(h, h', size, addr)
  {
    hide TakesBig;
  }

  lemma FrontGranted(h: Heap, size: nat)
    requires Inv(h) && DescFor(size) < DESC_CNT && h.free[DescFor(size)] != []
    ensures Granted(h, Popped(h, DescFor(size), size), size, h.free[DescFor(size)][0])
  {
    var p, i := FirstFree(h, DescFor(size));
    hide Inv;
  }

  lemma CutGranted(h: Heap, size: nat, p: nat)
    requires Inv(h) && DescFor(size) < DESC_CNT && h.free[DescFor(size)] == [] && Scan(h.used, 0, 1, false) == Some(p)
    ensures var d := DescFor(size);
      var h1 := Opened(h, d, p);
      h1.free[d] != [] && Granted(h, Popped(h1, d, size), size, h1.free[d][0])
  {
    var d := DescFor(size);
    var h1, all := Opened(h, d, p), AllBlocks(p, d);
    BlockInPage(p, d, 0);
    hide Inv, DescFor, BlockSize;
    assert h1.free[d] == all && all[0] == PGSIZE * p + HEADER;
    assert TakesPages(h.used, h1.used, p, 1);
    forall i | 0 <= i < |all| - 1 ensures all[1..][i] == all[0] + (i + 1) * BlockSize(d) {
      assert all[1..][i] == BlockAt(p, d, i + 1);
    }
  }

  lemma IsStep(h: Heap, act: MallocRuns.Act)
    requires MallocRuns.Enabled(h, act)
    ensures MallocRuns.StepTo(h, MallocRuns.Next(h, act))
  {
  }

  lemma BigIsStep(h: Heap, p: nat, n: nat, size: nat)
    requires Inv(h) && n > 0 && size + HEADER <= PGSIZE * n && Group(h.used, p, n, false)
    ensures MallocRuns.StepTo(h, BigTaken(h, p, n, size))
  {
    IsStep(h, MallocRuns.Act.TakeBig(size, p, n));
  }

  lemma FrontIsStep(h: Heap, d: nat, size: nat)
    requires Inv(h) && d < DESC_CNT && size <= BlockSize(d) && h.free[d] != []
    ensures MallocRuns.StepTo(h, Popped(h, d, size))
  {
    IsStep(h, MallocRuns.Act.TakeBlock(d, size));
  }

  lemma CutIsStep(h: Heap, d: nat, size: nat, p: nat)
    requires Inv(h) && d < DESC_CNT && size <= BlockSize(d) && h.free[d] == [] && Group(h.used, p, 1, false)
    ensures Opened(h, d, p).free[d] != [] && MallocRuns.StepTo(h, Popped(Opened(h, d, p), d, size))
  {
    IsStep(h, MallocRuns.Act.TakeFromNewArena(d, size, p));
  }

  lemma GiveIsStep(h: Heap, d: nat, p: nat, i: nat)
    requires Inv(h) && IsBlock(h.arenas, d, p, i) && BlockAt(p, d, i) !in h.free[d] && h.arenas[p].freeCnt + 1 < PerArena(d)
    ensures MallocRuns.StepTo(h, Pushed(h, d, BlockAt(p, d, i)))
  {
    IsStep(h, MallocRuns.Act.GiveBlock(d, p, i));
  }

  lemma LastIsStep(h: Heap, d: nat, p: nat, i: nat, list: seq<nat>)
    requires Inv(h) && IsBlock(h.arenas, d, p, i) && BlockAt(p, d, i) !in h.free[d] && p < |h.used|
    requires h.arenas[p].freeCnt + 1 == PerArena(d) && WithoutBlocks([BlockAt(p, d, i)] + h.free[d], list, d, p)
    ensures MallocRuns.StepTo(h, Closed(Pushed(h, d, BlockAt(p, d, i)), d, p, list))
  {
    IsStep(h, MallocRuns.Act.GiveLastBlock(d, p, i, list));
  }

  lemma GiveBigIsStep(h: Heap, p: nat, addr: nat)
    requires Inv(h) && p in h.arenas && h.arenas[p].Big? && addr == PGSIZE * p + HEADER
    ensures p + Pages(h.arenas[p]) <= |h.used| && MallocRuns.StepTo(h, BigGiven(h, p))
  {
    IsStep(h, MallocRuns.Act.GiveBig(p));
  }

  lemma HoldsSize(size: nat, n: nat)
    requires LeastPages(size, n)
    ensures size + HEADER <= PGSIZE * n
  {
  }

  lemma BigTakes(h: Heap, p: nat, n: nat, size: nat)
    requires Scan(h.used, 0, n, false) == Some(p) && LeastPages(size, n) && p !in h.arenas
    ensures TakesBig(h, BigTaken(h, p, n, size), size, PGSIZE * p + HEADER)
  {
    BigStart(p);
    hide LeastPages;
    assert TakesPages(h.used, SetRange(h.used, p, n, true), p, n);
  }

  lemma NothingToMeet(h: Heap)
    requires Inv(h)
    ensures |h.free| == DESC_CNT && !Available(h, 0)
  {
  }

  lemma SameEverywhere(h: Heap, mem: seq<Byte>)
    requires BytesKept(h, mem, mem)
    ensures forall a :: a in h.live ==> Same(mem, mem, a, SizeOf(h.arenas, a))
  {
  }

  lemma KeptBytes(h: Heap, h': Heap, mem: seq<Byte>, mem': seq<Byte>)
    requires Inv(h) && Inv(h') && Similar(h, h') && BytesKept(h', mem, mem')
    ensures forall a :: a in h.live && a in h'.live ==> Same(mem, mem', a, SizeOf(h.arenas, a))
  {
    SizesKept(h, h');
  }

  /** memcpy from one live block into another. */
  lemma CopiedBytes(h: Heap, mem: seq<Byte>, to: nat, from: nat, n: nat)
    requires Inv(h) && |mem| == PGSIZE * |h.used| && to in h.live && from in h.live && to != from
    requires n <= SizeOf(h.arenas, to) && n <= SizeOf(h.arenas, from)
    ensures to + n <= |mem| && from + n <= |mem| && Copied(mem, to, from, n)[to..to + n] == mem[from..from + n]
    ensures forall a :: a in h.live && a != to ==> Same(mem, Copied(mem, to, from, n), a, SizeOf(h.arenas, a))
  {
    LiveInArena(h, to);
    LiveInArena(h, from);
    assert Copied(mem, to, from, n)[to..to + n] == mem[from..from + n];
    forall a | a in h.live && a != to ensures Same(mem, Copied(mem, to, from, n), a, SizeOf(h.arenas, a)) {
      LiveInArena(h, a);
      LiveDisjoint(h, a, to);
      CopiedElsewhere(mem, to, from, n, a, SizeOf(h.arenas, a));
    }
  }

  lemma MovedBytes(h0: Heap, h1: Heap, h2: Heap, m0: seq<Byte>, m1: seq<Byte>, m2: seq<Byte>, to: nat, from: nat,
                   n: nat)
    requires Inv(h1) && Inv(h2) && Similar(h1, h2) && BytesKept(h2, m1, m2) && h2.live == h1.live - {from}
    requires to in h2.live
    requires to !in h0.live && forall a :: a in h0.live ==> a in h1.live && SizeOf(h1.arenas, a) == SizeOf(h0.arenas, a)
    requires n <= SizeOf(h1.arenas, to) && to + n <= |m1| && from + n <= |m0| && m1[to..to + n] == m0[from..from + n]
    requires forall a :: a in h1.live && a != to ==> Same(m0, m1, a, SizeOf(h1.arenas, a))
    ensures to + n <= |m2| && m2[to..to + n] == m0[from..from + n]
    ensures forall a :: a in h0.live && a in h2.live ==> Same(m0, m2, a, SizeOf(h0.arenas, a))
    ensures SizeOf(h2.arenas, to) == SizeOf(h1.arenas, to)
  {
    SizesKept(h1, h2);
    assert Same(m1, m2, to, SizeOf(h2.arenas, to));
    SamePrefix(m1, m2, to, SizeOf(h2.arenas, to), n);
    forall a | a in h0.live && a in h2.live ensures Same(m0, m2, a, SizeOf(h0.arenas, a)) {
      assert Same(m1, m2, a, SizeOf(h2.arenas, a));
      SameTrans(m0, m1, m2, a, SizeOf(h0.arenas, a));
    }
  }

  lemma SamePrefix(m: seq<Byte>, m': seq<Byte>, at: nat, k: nat, n: nat)
    requires Same(m, m', at, k) && n <= k
    ensures m'[at..at + n] == m[at..at + n]
  {
    assert m'[at..at + n] == m'[at..at + k][..n] && m[at..at + n] == m[at..at + k][..n];
  }

  /** Every live block lies inside memory. */
  lemma AllSame(h: Heap, mem: seq<Byte>)
    requires Inv(h) && |mem| == PGSIZE * |h.used|
    ensures BytesKept(h, mem, mem)
  {
    forall a | a in h.live ensures Same(mem, mem, a, SizeOf(h.arenas, a)) {
      LiveInArena(h, a);
    }
  }

  lemma GivenBytes(h: Heap, h': Heap, mem: seq<Byte>, p: nat, addr: nat)
    requires Inv(h) && Inv(h') && h'.live == h.live - {addr} && h'.arenas == h.arenas - {p}
    requires |mem| == PGSIZE * |h.used|
    requires p in h.arenas && h.arenas[p].Big? && addr == PGSIZE * p + HEADER
    ensures PGSIZE * p + PGSIZE * Pages(h.arenas[p]) <= |mem|
    ensures BytesKept(h', mem, Cleared(mem, PGSIZE * p, PGSIZE * Pages(h.arenas[p])))
  {
    PagesInRange(h, p);
    SizesKept(h, h');
    forall a | a in h'.live ensures Same(mem, Cleared(mem, PGSIZE * p, PGSIZE * Pages(h.arenas[p])), a, SizeOf(h'.arenas, a)) {
      var q, i := LiveIndex(h, a);
      ClearedPages(h, mem, p, a);
    }
  }

  lemma FreeDistinct(h: Heap, d: nat)
    requires Inv(h) && d < DESC_CNT
    ensures Distinct(h.free[d])
  {
  }

  lemma FreeLists(h: Heap)
    requires Inv(h)
    ensures |h.free| == DESC_CNT
  {
  }

  lemma SimilarSelf(h: Heap)
    ensures Similar(h, h)
  {
  }

  lemma IdleBut(arenas: Arenas, p: nat)
    requires NoneIdle(arenas)
    ensures NoneIdleBut(arenas, p)
  {
  }

  lemma OpenedLiveSame(h: Heap, d: nat, p: nat)
    requires d < DESC_CNT == |h.free| && p < |h.used|
    ensures Opened(h, d, p).live == h.live && |Opened(h, d, p).used| == |h.used| && |Opened(h, d, p).free| == DESC_CNT
  {
  }

  lemma PoppedLive(h: Heap, d: nat, size: nat)
    requires |h.free| == DESC_CNT && d < DESC_CNT && h.free[d] != []
    ensures Popped(h, d, size).live == h.live[h.free[d][0] := size] && Popped(h, d, size).used == h.used
  {
  }

  lemma OpenedFirst(h: Heap, d: nat, p: nat)
    requires d < DESC_CNT == |h.free| && h.free[d] == [] && p < |h.used| && p !in h.arenas
    ensures Opened(h, d, p).free[d] != [] && Opened(h, d, p).free[d][0] / PGSIZE == p && Similar(h, Opened(h, d, p))
  {
    BlockInPage(p, d, 0);
    assert Opened(h, d, p).free[d][0] == AllBlocks(p, d)[0];
  }

  lemma PoppedSimilar(h: Heap, h1: Heap, d: nat, size: nat)
    requires Inv(h1) && d < DESC_CNT && h1.free[d] != [] && Similar(h, h1)
    ensures Similar(h, Popped(h1, d, size))
  {
    var p, i := FirstFree(h1, d);
  }

  // ----- freeing -----

  /** A sequence without one of its elements. */
  function Without(s: seq<nat>, x: nat): seq<nat>
  {
    if s == [] then [] else if s[0] == x then s[1..] else [s[0]] + Without(s[1..], x)
  }

  lemma {:induction false} WithoutMembers(s: seq<nat>, x: nat)
    requires Distinct(s)
    ensures Distinct(Without(s, x)) && forall a :: a in Without(s, x) <==> a in s && a != x
  {
    if s != [] {
      PoppedList(s);
      if s[0] != x {
        WithoutMembers(s[1..], x);
        Joined([s[0]], Without(s[1..], x));
      }
    }
  }

  /** A sequence without the elements of another. */
  function Sans(s: seq<nat>, xs: seq<nat>): seq<nat>
  {
    if s == [] then [] else (if s[0] in xs then [] else [s[0]]) + Sans(s[1..], xs)
  }

  lemma {:induction false} SansNothing(s: seq<nat>)
    ensures Sans(s, []) == s
  {
    if s != [] {
      SansNothing(s[1..]);
    }
  }

  lemma {:induction false} SansAbsent(s: seq<nat>, xs: seq<nat>, x: nat)
    requires x !in s
    ensures Sans(s, xs + [x]) == Sans(s, xs)
  {
    if s != [] {
      SansAbsent(s[1..], xs, x);
    }
  }

  lemma {:induction false} SansMore(s: seq<nat>, xs: seq<nat>, x: nat)
    requires Distinct(s)
    ensures Without(Sans(s, xs), x) == Sans(s, xs + [x])
  {
    if s != [] {
      PoppedList(s);
      SansMore(s[1..], xs, x);
      var r := Sans(s[1..], xs);
      if s[0] in xs {
        assert Sans(s, xs) == r && Sans(s, xs + [x]) == Sans(s[1..], xs + [x]);
      } else {
        assert Sans(s, xs) == [s[0]] + r && ([s[0]] + r)[1..] == r;
        if s[0] == x {
          SansAbsent(s[1..], xs, x);
        }
      }
    }
  }

  /** On the free list of a descriptor, the blocks of an arena are those in its page. */
  lemma {:induction false} SansIsOffPage(arenas: Arenas, d: nat, p: nat, s: seq<nat>)
    requires d < DESC_CNT && forall a :: a in s ==> SmallBlock(arenas, d, a)
    ensures Sans(s, AllBlocks(p, d)) == OffPage(s, p)
  {
    if s != [] {
      var a := s[0];
      assert SmallBlock(arenas, d, a);
      var q: nat, i: nat :| IsBlock(arenas, d, q, i) && a == BlockAt(q, d, i);
      BlockInPage(q, d, i);
      if q == p {
        assert AllBlocks(p, d)[i] == a;
      } else if a in AllBlocks(p, d) {
        var j :| 0 <= j < PerArena(d) && AllBlocks(p, d)[j] == a;
        BlockInPage(p, d, j);
      }
      SansIsOffPage(arenas, d, p, s[1..]);
    }
  }

  lemma ClosedReturned(h0: Heap, h1: Heap, h: Heap, d: nat, addr: nat)
    requires |h0.free| == DESC_CNT && Inv(h1) && d < DESC_CNT && |h.free| == DESC_CNT
    requires var p := addr / PGSIZE;
      && p in h0.arenas && h0.arenas[p].Small? && h0.arenas[p].desc == d && h0.arenas[p].freeCnt + 1 >= PerArena(d)
      && h1 == h0.(arenas := h0.arenas[p := Small(d, h0.arenas[p].freeCnt + 1)], free := h0.free[d := [addr] + h0.free[d]],
                   live := h1.live)
      && h.arenas == h1.arenas - {p} && GivesPages(h1.used, h.used, p, 1)
      && h.free == h1.free[d := Sans(h1.free[d], AllBlocks(p, d))]
    ensures Returned(h0, h, addr)
  {
    var p := addr / PGSIZE;
    SansIsOffPage(h1.arenas, d, p, h1.free[d]);
    assert OffPage([addr] + h0.free[d], p) == OffPage(h0.free[d], p);
  }

  lemma PageGiven(h: Heap, p: nat)
    requires Inv(h) && p in h.arenas
    ensures p + Pages(h.arenas[p]) <= |h.used|
    ensures GivesPages(h.used, SetRange(h.used, p, Pages(h.arenas[p]), false), p, Pages(h.arenas[p]))
  {
  }

  /** Clearing a block that is being freed leaves all other blocks alone. */
  lemma ClearedBlock(h: Heap, mem: seq<Byte>, addr: nat, a: nat)
    requires Inv(h) && |mem| == PGSIZE * |h.used| && addr in h.live && a in h.live && a != addr
    ensures addr + SizeOf(h.arenas, addr) <= |mem|
    ensures Same(mem, Cleared(mem, addr, SizeOf(h.arenas, addr)), a, SizeOf(h.arenas, a))
  {
    LiveInArena(h, addr);
    LiveInArena(h, a);
    LiveDisjoint(h, a, addr);
    ClearedElsewhere(mem, addr, SizeOf(h.arenas, addr), a, SizeOf(h.arenas, a));
  }

  /** Clearing the pages of an arena leaves the blocks of other arenas alone. */
  lemma ClearedPages(h: Heap, mem: seq<Byte>, p: nat, a: nat)
    requires Inv(h) && |mem| == PGSIZE * |h.used| && p in h.arenas && a in h.live && a / PGSIZE != p
    ensures PGSIZE * p + PGSIZE * Pages(h.arenas[p]) <= |mem|
    ensures Same(mem, Cleared(mem, PGSIZE * p, PGSIZE * Pages(h.arenas[p])), a, SizeOf(h.arenas, a))
  {
    LiveInArena(h, a);
    ArenasApart(h, p, a / PGSIZE);
    PagesInRange(h, p);
    ClearedElsewhere(mem, PGSIZE * p, PGSIZE * Pages(h.arenas[p]), a, SizeOf(h.arenas, a));
  }

  lemma PagesInRange(h: Heap, p: nat)
    requires Inv(h) && p in h.arenas
    ensures PGSIZE * p + PGSIZE * Pages(h.arenas[p]) <= PGSIZE * |h.used|
  {
  }

  lemma SmallSize(h: Heap, addr: nat)
    requires Inv(h) && addr in h.live && addr / PGSIZE in h.arenas && h.arenas[addr / PGSIZE].Small?
    ensures h.arenas[addr / PGSIZE].desc < DESC_CNT && SizeOf(h.arenas, addr) == BlockSize(h.arenas[addr / PGSIZE].desc)
    ensures addr + SizeOf(h.arenas, addr) <= PGSIZE * |h.used| && PGSIZE * (addr / PGSIZE) + PGSIZE <= PGSIZE * |h.used|
  {
    LiveInArena(h, addr);
    PagesInRange(h, addr / PGSIZE);
  }

  lemma PushedParts(h: Heap, d: nat, addr: nat)
    requires d < DESC_CNT == |h.free| && addr / PGSIZE in h.arenas && h.arenas[addr / PGSIZE].Small?
    ensures Pushed(h, d, addr) == h.(arenas := h.arenas[addr / PGSIZE := Small(d, h.arenas[addr / PGSIZE].freeCnt + 1)],
                                     free := h.free[d := [addr] + h.free[d]], live := h.live - {addr})
  {
  }

  lemma CountBound(h: Heap, p: nat)
    requires Inv(h) && p in h.arenas && h.arenas[p].Small?
    ensures h.arenas[p].desc < DESC_CNT && h.arenas[p].freeCnt <= PerArena(h.arenas[p].desc)
  {
    FullWhenAll(h.free[h.arenas[p].desc], h.arenas[p].desc, p);
  }

  lemma BusyAgain(arenas: Arenas, p: nat)
    requires NoneIdleBut(arenas, p) && p in arenas && arenas[p].Small? && arenas[p].desc < DESC_CNT
    requires arenas[p].freeCnt < PerArena(arenas[p].desc)
    ensures NoneIdle(arenas)
  {
  }

  lemma PushedBytes(h: Heap, h': Heap, mem: seq<Byte>, addr: nat)
    requires Inv(h) && Inv(h') && Similar(h, h') && |mem| == PGSIZE * |h.used| && addr in h.live
    requires h'.live == h.live - {addr}
    ensures addr + SizeOf(h.arenas, addr) <= |mem| && BytesKept(h', mem, Cleared(mem, addr, SizeOf(h.arenas, addr)))
  {
    LiveInArena(h, addr);
    SizesKept(h, h');
    forall a | a in h'.live ensures Same(mem, Cleared(mem, addr, SizeOf(h.arenas, addr)), a, SizeOf(h'.arenas, a)) {
      ClearedBlock(h, mem, addr, a);
    }
  }

  /** A full arena holds no live block. */
  lemma IdleNoLive(h: Heap, p: nat, d: nat, a: nat)
    requires Inv(h) && p in h.arenas && d < DESC_CNT && h.arenas[p] == Small(d, PerArena(d)) && a in h.live
    ensures a / PGSIZE != p
  {
    FullWhenAll(h.free[d], d, p);
    var q, i := LiveIndex(h, a);
  }

  lemma ClosedBytes(h: Heap, h': Heap, m0: seq<Byte>, mem: seq<Byte>, p: nat)
    requires Inv(h) && Inv(h') && h'.live == h.live && h'.arenas == h.arenas - {p} && |mem| == PGSIZE * |h.used|
    requires p in h.arenas && h.arenas[p].Small? && h.arenas[p].desc < DESC_CNT
    requires h.arenas[p] == Small(h.arenas[p].desc, PerArena(h.arenas[p].desc))
    requires BytesKept(h, m0, mem)
    ensures PGSIZE * p + PGSIZE <= |mem| && BytesKept(h', m0, Cleared(mem, PGSIZE * p, PGSIZE))
  {
    PagesInRange(h, p);
    SizesKept(h, h');
    forall a | a in h'.live ensures Same(m0, Cleared(mem, PGSIZE * p, PGSIZE), a, SizeOf(h'.arenas, a)) {
      IdleNoLive(h, p, h.arenas[p].desc, a);
      ClearedPages(h, mem, p, a);
      SameTrans(m0, mem, Cleared(mem, PGSIZE * p, PGSIZE), a, SizeOf(h.arenas, a));
    }
  }

  /** What does not change about an arena. */
  function Kind(a: Arena): Arena
  {
    if a.Small? then Small(a.desc, 0) else a
  }

  ghost predicate Similar(h: Heap, h': Heap)
  {
    forall p :: p in h.arenas && p in h'.arenas ==> Kind(h.arenas[p]) == Kind(h'.arenas[p])
  }

  lemma SizesKept(h: Heap, h': Heap)
    requires Inv(h) && Inv(h') && Similar(h, h')
    ensures forall a :: a in h.live && a in h'.live ==> SizeOf(h'.arenas, a) == SizeOf(h.arenas, a)
  {
    forall a | a in h.live && a in h'.live ensures SizeOf(h'.arenas, a) == SizeOf(h.arenas, a) {
      LivePage(h.arenas, h.free, a);
      LivePage(h'.arenas, h'.free, a);
      assert Kind(h.arenas[a / PGSIZE]) == Kind(h'.arenas[a / PGSIZE]);
    }
  }

  lemma Descriptor(size: nat, d: nat)
    requires d <= DESC_CNT && (forall e :: 0 <= e < d ==> BlockSize(e) < size)
    requires (d < DESC_CNT ==> size <= BlockSize(d))
    ensures d == DescFor(size)
  {
    var e := DescFor(size);
  }
}
