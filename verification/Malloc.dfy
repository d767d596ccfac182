/**
 The block allocator over the page allocator (src/threads/malloc.c,
 src/threads/palloc.c).  An address is an offset into the kernel pool; a page
 number is an index into its bitmap.  Arena headers and the links of the free
 lists, which the source keeps inside the pages, are separate values here.
 */
module Malloc {
  import opened Sequences

  const PGSIZE := 4096
  const HEADER := 12       // sizeof (struct arena)
  const DESC_CNT := 7

  // ----- layout -----

  /** The block sizes malloc_init sets up. */
  function BlockSize(d: nat): (r: nat)
    requires d < DESC_CNT
    ensures 16 <= r <= 1024
  {
    [16, 32, 64, 128, 256, 512, 1024][d]
  }

  function PerArena(d: nat): (r: nat)
    requires d < DESC_CNT
    ensures r > 1
  {
    (PGSIZE - HEADER) / BlockSize(d)
  }

  /** arena_to_block. */
  function BlockAt(p: nat, d: nat, i: nat): nat
    requires d < DESC_CNT
  {
    PGSIZE * p + HEADER + i * BlockSize(d)
  }

  lemma Scaled(d: nat, i: nat)
    requires d < DESC_CNT && i < PerArena(d)
    ensures HEADER + i * BlockSize(d) + BlockSize(d) <= PGSIZE
  {
    var b := BlockSize(d);
    assert b * PerArena(d) <= PGSIZE - HEADER;
    assert (i + 1) * b <= PerArena(d) * b by {
      Mono(i + 1, PerArena(d), b);
    }
    assert (i + 1) * b == i * b + b;
  }

  lemma Mono(a: nat, b: nat, c: nat)
    requires a <= b
    ensures a * c <= b * c
  {
  }

  /** block_to_arena finds the page again, and the block lies inside it, clear of the header. */
  lemma BlockInPage(p: nat, d: nat, i: nat)
    requires d < DESC_CNT && i < PerArena(d)
    ensures BlockAt(p, d, i) / PGSIZE == p
    ensures PGSIZE * p + HEADER <= BlockAt(p, d, i) && BlockAt(p, d, i) + BlockSize(d) <= PGSIZE * (p + 1)
  {
    Scaled(d, i);
    var r := HEADER + i * BlockSize(d);
    assert BlockAt(p, d, i) == PGSIZE * p + r && 0 <= r < PGSIZE;
  }

  /** Different blocks of an arena do not overlap. */
  lemma BlocksApart(p: nat, d: nat, i: nat, j: nat)
    requires d < DESC_CNT && i < j
    ensures BlockAt(p, d, i) + BlockSize(d) <= BlockAt(p, d, j)
  {
    Mono(i + 1, j, BlockSize(d));
    assert (i + 1) * BlockSize(d) == i * BlockSize(d) + BlockSize(d);
  }

  // ----- the state -----

  datatype Arena = Small(desc: nat, freeCnt: nat) | Big(pages: nat)

  function Pages(a: Arena): nat
  {
    if a.Small? then 1 else a.pages
  }

  type Arenas = map<nat, Arena>

  ghost predicate Covers(arenas: Arenas, p: nat, q: nat)
  {
    p in arenas && p <= q < p + Pages(arenas[p])
  }

  ghost predicate Covered(arenas: Arenas, q: nat)
  {
    exists p :: Covers(arenas, p, q)
  }

  /** The bitmap marks the pages that others hold, `base`, and those of arenas;
      arenas do not overlap. */
  ghost predicate PagesOk(used: seq<bool>, base: seq<bool>, arenas: Arenas)
  {
    && |base| == |used|
    && (forall p :: p in arenas ==> Pages(arenas[p]) > 0 && p + Pages(arenas[p]) <= |used|)
    && (forall q :: 0 <= q < |used| ==> (used[q] <==> base[q] || Covered(arenas, q)) && !(base[q] && Covered(arenas, q)))
    && (forall p, p', q :: Covers(arenas, p, q) && Covers(arenas, p', q) ==> p == p')
  }

  /** Block `i` of the arena at `p`, of descriptor `d`. */
  ghost predicate IsBlock(arenas: Arenas, d: nat, p: nat, i: nat)
  {
    d < DESC_CNT && p in arenas && arenas[p].Small? && arenas[p].desc == d && i < PerArena(d)
  }

  ghost predicate SmallBlock(arenas: Arenas, d: nat, addr: nat)
  {
    exists p, i :: IsBlock(arenas, d, p, i) && addr == BlockAt(p, d, i)
  }

  ghost predicate BigBlock(arenas: Arenas, addr: nat)
  {
    exists p :: p in arenas && arenas[p].Big? && addr == PGSIZE * p + HEADER
  }

  /** Each free list holds blocks of its size, none twice. */
  ghost predicate FreeOk(arenas: Arenas, free: seq<seq<nat>>)
  {
    && |free| == DESC_CNT
    && (forall d :: 0 <= d < DESC_CNT ==> Distinct(free[d]))
    && (forall d, addr :: 0 <= d < DESC_CNT && addr in free[d] ==> SmallBlock(arenas, d, addr))
  }

  /** The blocks of an arena that are on the free list. */
  ghost function FreeOf(list: seq<nat>, d: nat, p: nat): set<nat>
    requires d < DESC_CNT
  {
    set i | 0 <= i < PerArena(d) && BlockAt(p, d, i) in list
  }

  /** `free_cnt` counts the arena's blocks on the free list. */
  ghost predicate CountsOk(arenas: Arenas, free: seq<seq<nat>>)
    requires |free| == DESC_CNT
  {
    forall p :: p in arenas && arenas[p].Small? ==>
      arenas[p].desc < DESC_CNT && arenas[p].freeCnt == |FreeOf(free[arenas[p].desc], arenas[p].desc, p)|
  }

  /** No arena is kept without a block in use. */
  ghost predicate NoneIdle(arenas: Arenas)
  {
    forall p :: p in arenas && arenas[p].Small? ==>
      arenas[p].desc < DESC_CNT && arenas[p].freeCnt < PerArena(arenas[p].desc)
  }

  /** Blocks in use: not on a free list. */
  ghost predicate InUse(arenas: Arenas, free: seq<seq<nat>>, addr: nat)
    requires |free| == DESC_CNT
  {
    BigBlock(arenas, addr) || exists d :: 0 <= d < DESC_CNT && SmallBlock(arenas, d, addr) && addr !in free[d]
  }

  /** The size of a block. */
  ghost function SizeOf(arenas: Arenas, addr: nat): nat
  {
    var p := addr / PGSIZE;
    if p !in arenas then 0
    else if arenas[p].Small? then (if arenas[p].desc < DESC_CNT then BlockSize(arenas[p].desc) else 0)
    else if PGSIZE * arenas[p].pages >= addr % PGSIZE then PGSIZE * arenas[p].pages - addr % PGSIZE else 0
  }

  /** `live`: the blocks handed out and not freed, with the size asked for. */
  ghost predicate LiveOk(arenas: Arenas, free: seq<seq<nat>>, live: map<nat, nat>)
    requires |free| == DESC_CNT
  {
    && (forall addr :: addr in live <==> InUse(arenas, free, addr))
    && (forall addr :: addr in live ==> live[addr] <= SizeOf(arenas, addr))
  }

  datatype Heap = Heap(used: seq<bool>, base: seq<bool>, arenas: Arenas, free: seq<seq<nat>>, live: map<nat, nat>)

  ghost predicate Inv(h: Heap)
  {
    && PagesOk(h.used, h.base, h.arenas) && FreeOk(h.arenas, h.free)
    && CountsOk(h.arenas, h.free) && LiveOk(h.arenas, h.free, h.live)
  }

  // ----- what the invariant means -----

  lemma BigStart(p: nat)
    ensures (PGSIZE * p + HEADER) / PGSIZE == p && (PGSIZE * p + HEADER) % PGSIZE == HEADER
  {
  }

  /** A live block lies in the pages of its arena, clear of the header. */
  lemma LiveInArena(h: Heap, addr: nat)
    requires Inv(h) && addr in h.live
    ensures var p := addr / PGSIZE;
      && p in h.arenas && PGSIZE * p + HEADER <= addr
      && addr + SizeOf(h.arenas, addr) <= PGSIZE * (p + Pages(h.arenas[p])) <= PGSIZE * |h.used|
  {
    assert InUse(h.arenas, h.free, addr);
    if BigBlock(h.arenas, addr) {
      var p :| p in h.arenas && h.arenas[p].Big? && addr == PGSIZE * p + HEADER;
      BigStart(p);
    } else {
      var d :| 0 <= d < DESC_CNT && SmallBlock(h.arenas, d, addr) && addr !in h.free[d];
      var p, i :| IsBlock(h.arenas, d, p, i) && addr == BlockAt(p, d, i);
      BlockInPage(p, d, i);
    }
  }

  /** Two live blocks never share a byte. */
  lemma LiveDisjoint(h: Heap, a: nat, b: nat)
    requires Inv(h) && a in h.live && b in h.live && a != b
    ensures a + SizeOf(h.arenas, a) <= b || b + SizeOf(h.arenas, b) <= a
  {
    LiveInArena(h, a);
    LiveInArena(h, b);
    var p, p' := a / PGSIZE, b / PGSIZE;
    if p == p' {
      SameArena(h, a, b);
    } else {
      ArenasApart(h, p, p');
    }
  }

  lemma ArenasApart(h: Heap, p: nat, p': nat)
    requires Inv(h) && p in h.arenas && p' in h.arenas && p != p'
    ensures p + Pages(h.arenas[p]) <= p' || p' + Pages(h.arenas[p']) <= p
  {
    if p < p' {
      assert Covers(h.arenas, p', p') && !Covers(h.arenas, p, p');
    } else {
      assert Covers(h.arenas, p, p) && !Covers(h.arenas, p', p);
    }
  }

  lemma SameArena(h: Heap, a: nat, b: nat)
    requires Inv(h) && a in h.live && b in h.live && a != b && a / PGSIZE == b / PGSIZE
    ensures a + SizeOf(h.arenas, a) <= b || b + SizeOf(h.arenas, b) <= a
  {
    var p, i := LiveIndex(h, a);
    var p', j := LiveIndex(h, b);
    if h.arenas[p].Small? {
      var d := h.arenas[p].desc;
      if i < j {
        BlocksApart(p, d, i, j);
      } else if j < i {
        BlocksApart(p, d, j, i);
      }
    }
  }

  lemma LiveIndex(h: Heap, addr: nat) returns (p: nat, i: nat)
    requires Inv(h) && addr in h.live
    ensures p == addr / PGSIZE && p in h.arenas
    ensures h.arenas[p].Small? ==> IsBlock(h.arenas, h.arenas[p].desc, p, i) && addr == BlockAt(p, h.arenas[p].desc, i)
    ensures h.arenas[p].Small? ==> addr !in h.free[h.arenas[p].desc]
    ensures h.arenas[p].Big? ==> addr == PGSIZE * p + HEADER
  {
    assert InUse(h.arenas, h.free, addr);
    if BigBlock(h.arenas, addr) {
      p :| p in h.arenas && h.arenas[p].Big? && addr == PGSIZE * p + HEADER;
      BigStart(p);
      i := 0;
    } else {
      var d :| 0 <= d < DESC_CNT && SmallBlock(h.arenas, d, addr) && addr !in h.free[d];
      p, i :| IsBlock(h.arenas, d, p, i) && addr == BlockAt(p, d, i);
      BlockInPage(p, d, i);
    }
  }

  /** When everything is freed, every page is back. */
  lemma AllFreedRestores(h: Heap)
    requires Inv(h) && NoneIdle(h.arenas) && h.live == map[]
    ensures h.arenas == map[] && h.used == h.base
  {
    if h.arenas != map[] {
      var p :| p in h.arenas;
      var addr := SomeLive(h, p);
    }
    forall q | 0 <= q < |h.used| ensures h.used[q] == h.base[q] {
      assert !Covered(h.arenas, q);
    }
  }

  /** Every arena has a block in use. */
  lemma SomeLive(h: Heap, p: nat) returns (addr: nat)
    requires Inv(h) && NoneIdle(h.arenas) && p in h.arenas
    ensures addr in h.live
  {
    if h.arenas[p].Big? {
      addr := PGSIZE * p + HEADER;
      assert BigBlock(h.arenas, addr);
      assert InUse(h.arenas, h.free, addr);
    } else {
      var d := h.arenas[p].desc;
      var i := NotFree(h.free[d], d, p);
      addr := BlockAt(p, d, i);
      assert IsBlock(h.arenas, d, p, i);
      assert SmallBlock(h.arenas, d, addr);
      assert InUse(h.arenas, h.free, addr);
    }
  }

  function Below(n: nat): (r: set<nat>)
    ensures |r| == n && forall i :: i in r <==> 0 <= i < n
  {
    if n == 0 then {} else Below(n - 1) + {n - 1}
  }

  lemma SameSize(a: set<nat>, b: set<nat>)
    requires a <= b && |a| == |b|
    ensures a == b
  {
    assert b == a + (b - a);
  }

  /** The count reaches the number of blocks exactly when all of them are free. */
  lemma FullWhenAll(list: seq<nat>, d: nat, p: nat)
    requires d < DESC_CNT
    ensures |FreeOf(list, d, p)| <= PerArena(d)
    ensures |FreeOf(list, d, p)| == PerArena(d) <==> forall i :: 0 <= i < PerArena(d) ==> BlockAt(p, d, i) in list
  {
    var f, all := FreeOf(list, d, p), Below(PerArena(d));
    assert f <= all && all == f + (all - f);
    if |f| == PerArena(d) {
      SameSize(f, all);
      forall i | 0 <= i < PerArena(d) ensures BlockAt(p, d, i) in list {
        assert i in all && i in f;
      }
    } else {
      assert f != all;
      var i :| i in all && i !in f;
    }
  }

  lemma NotFree(list: seq<nat>, d: nat, p: nat) returns (i: nat)
    requires d < DESC_CNT && |FreeOf(list, d, p)| < PerArena(d)
    ensures i < PerArena(d) && BlockAt(p, d, i) !in list
  {
    FullWhenAll(list, d, p);
    i :| 0 <= i < PerArena(d) && BlockAt(p, d, i) !in list;
  }
}
