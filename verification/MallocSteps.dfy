/**
 Each step of malloc and free keeps the heap's invariant
 (src/threads/malloc.c, src/threads/palloc.c).
 */
module MallocSteps {
  import opened Bitmaps
  import opened Sequences
  import opened Malloc

  // ----- pages -----

  lemma CoveredIsUsed(used: seq<bool>, base: seq<bool>, arenas: Arenas, p: nat, q: nat)
    requires PagesOk(used, base, arenas) && Covers(arenas, p, q)
    ensures q < |used| && used[q] && !base[q]
  {
    assert Covered(arenas, q);
  }

  lemma PagesTake(used: seq<bool>, base: seq<bool>, arenas: Arenas, p: nat, a: Arena)
    requires PagesOk(used, base, arenas) && Pages(a) > 0 && Group(used, p, Pages(a), false)
    ensures p !in arenas && PagesOk(SetRange(used, p, Pages(a), true), base, arenas[p := a])
  {
    var n, arenas' := Pages(a), arenas[p := a];
    forall x: nat, q: nat | Covers(arenas, x, q) ensures !(p <= q < p + n) {
      CoveredIsUsed(used, base, arenas, x, q);
    }
    assert Covers(arenas, p, p) || p !in arenas;
    var used' := SetRange(used, p, n, true);
    forall q | 0 <= q < |used|
      ensures (used'[q] <==> base[q] || Covered(arenas', q)) && !(base[q] && Covered(arenas', q))
    {
      TakeCovers(arenas, p, a, q);
    }
    forall x, y, q | Covers(arenas', x, q) && Covers(arenas', y, q) ensures x == y {
      assert x == p || Covers(arenas, x, q);
      assert y == p || Covers(arenas, y, q);
    }
  }

  lemma TakeCovers(arenas: Arenas, p: nat, a: Arena, q: nat)
    requires p !in arenas
    ensures Covered(arenas[p := a], q) <==> Covered(arenas, q) || p <= q < p + Pages(a)
  {
    var arenas' := arenas[p := a];
    if Covered(arenas', q) {
      var x :| Covers(arenas', x, q);
      assert x != p ==> Covers(arenas, x, q);
    }
    if Covered(arenas, q) {
      var x :| Covers(arenas, x, q);
      assert Covers(arenas', x, q);
    }
    if p <= q < p + Pages(a) {
      assert Covers(arenas', p, q);
    }
  }

  lemma PagesGive(used: seq<bool>, base: seq<bool>, arenas: Arenas, p: nat)
    requires PagesOk(used, base, arenas) && p in arenas
    ensures p + Pages(arenas[p]) <= |used| && Group(used, p, Pages(arenas[p]), true)
    ensures PagesOk(SetRange(used, p, Pages(arenas[p]), false), base, arenas - {p})
  {
    var n, arenas' := Pages(arenas[p]), arenas - {p};
    forall q | p <= q < p + n ensures used[q] {
      assert Covers(arenas, p, q);
    }
    var used' := SetRange(used, p, n, false);
    forall q | 0 <= q < |used|
      ensures (used'[q] <==> base[q] || Covered(arenas', q)) && !(base[q] && Covered(arenas', q))
    {
      GiveCovers(arenas, p, q);
      if p <= q < p + n {
        CoveredIsUsed(used, base, arenas, p, q);
      }
    }
    forall x, y, q | Covers(arenas', x, q) && Covers(arenas', y, q) ensures x == y {
      assert Covers(arenas, x, q) && Covers(arenas, y, q);
    }
  }

  lemma GiveCovers(arenas: Arenas, p: nat, q: nat)
    requires p in arenas && forall x, y :: Covers(arenas, x, q) && Covers(arenas, y, q) ==> x == y
    ensures Covered(arenas - {p}, q) <==> Covered(arenas, q) && !(p <= q < p + Pages(arenas[p]))
  {
    var arenas' := arenas - {p};
    if Covered(arenas', q) {
      var x :| Covers(arenas', x, q);
      assert Covers(arenas, x, q);
      assert p <= q < p + Pages(arenas[p]) ==> Covers(arenas, p, q);
    }
    if Covered(arenas, q) && !(p <= q < p + Pages(arenas[p])) {
      var x :| Covers(arenas, x, q);
      assert Covers(arenas', x, q);
    }
  }

  /** Recounting an arena moves no page. */
  lemma PagesSame(used: seq<bool>, base: seq<bool>, arenas: Arenas, p: nat, a: Arena)
    requires PagesOk(used, base, arenas) && p in arenas && Pages(a) == Pages(arenas[p])
    ensures PagesOk(used, base, arenas[p := a])
  {
    var arenas' := arenas[p := a];
    forall x, q ensures Covers(arenas', x, q) <==> Covers(arenas, x, q) {
    }
    forall q ensures Covered(arenas', q) <==> Covered(arenas, q) {
      if Covered(arenas, q) {
        var x :| Covers(arenas, x, q);
        assert Covers(arenas', x, q);
      }
      if Covered(arenas', q) {
        var x :| Covers(arenas', x, q);
        assert Covers(arenas, x, q);
      }
    }
  }

  // ----- blocks -----

  /** The same arenas, up to their counts. */
  ghost predicate Alike(a: Arenas, b: Arenas)
  {
    && a.Keys == b.Keys
    && forall p :: p in a ==>
      a[p].Small? == b[p].Small? && (a[p].Small? ==> a[p].desc == b[p].desc) && (a[p].Big? ==> a[p] == b[p])
  }

  lemma AlikeBlocks(a: Arenas, b: Arenas, d: nat, addr: nat)
    requires Alike(a, b)
    ensures SmallBlock(a, d, addr) <==> SmallBlock(b, d, addr)
    ensures BigBlock(a, addr) <==> BigBlock(b, addr)
    ensures SizeOf(a, addr) == SizeOf(b, addr)
  {
    if SmallBlock(a, d, addr) {
      var p, i :| IsBlock(a, d, p, i) && addr == BlockAt(p, d, i);
      assert IsBlock(b, d, p, i);
    }
    if SmallBlock(b, d, addr) {
      var p, i :| IsBlock(b, d, p, i) && addr == BlockAt(p, d, i);
      assert IsBlock(a, d, p, i);
    }
    assert BigBlock(a, addr) <==> BigBlock(b, addr);
  }

  /** Which block an address is. */
  lemma WhichBlock(p: nat, d: nat, i: nat, p': nat, j: nat)
    requires d < DESC_CNT && i < PerArena(d) && j < PerArena(d) && BlockAt(p, d, i) == BlockAt(p', d, j)
    ensures p == p' && i == j
  {
    BlockInPage(p, d, i);
    BlockInPage(p', d, j);
    if i < j {
      BlocksApart(p, d, i, j);
    } else if j < i {
      BlocksApart(p, d, j, i);
    }
  }

  lemma BlockNotBig(arenas: Arenas, p: nat, d: nat, i: nat)
    requires IsBlock(arenas, d, p, i)
    ensures !BigBlock(arenas, BlockAt(p, d, i))
  {
    BlockInPage(p, d, i);
    if BigBlock(arenas, BlockAt(p, d, i)) {
      var x :| x in arenas && arenas[x].Big? && BlockAt(p, d, i) == PGSIZE * x + HEADER;
      BigStart(x);
    }
  }

  /** An address is a block of one descriptor only. */
  lemma OneDescriptor(arenas: Arenas, d: nat, d': nat, addr: nat)
    requires SmallBlock(arenas, d, addr) && SmallBlock(arenas, d', addr)
    ensures d == d'
  {
    var p, i :| IsBlock(arenas, d, p, i) && addr == BlockAt(p, d, i);
    var p', j :| IsBlock(arenas, d', p', j) && addr == BlockAt(p', d', j);
    BlockInPage(p, d, i);
    BlockInPage(p', d', j);
  }

  // ----- taking a block off a free list, and putting one on -----

  lemma FreeOfOther(list: seq<nat>, list': seq<nat>, d: nat, p: nat, p': nat, i: nat)
    requires d < DESC_CNT && i < PerArena(d) && p' != p
    requires forall a :: a != BlockAt(p, d, i) ==> (a in list <==> a in list')
    ensures FreeOf(list, d, p') == FreeOf(list', d, p')
  {
    forall j | 0 <= j < PerArena(d) ensures BlockAt(p', d, j) in list <==> BlockAt(p', d, j) in list' {
      if BlockAt(p', d, j) == BlockAt(p, d, i) {
        WhichBlock(p, d, i, p', j);
      }
    }
  }

  lemma FreeOfAdd(list: seq<nat>, list': seq<nat>, d: nat, p: nat, i: nat)
    requires d < DESC_CNT && i < PerArena(d) && BlockAt(p, d, i) !in list
    requires forall a :: a in list' <==> a in list || a == BlockAt(p, d, i)
    ensures |FreeOf(list', d, p)| == |FreeOf(list, d, p)| + 1
  {
    forall j | 0 <= j < PerArena(d) ensures BlockAt(p, d, j) in list' <==> BlockAt(p, d, j) in list || j == i {
      if BlockAt(p, d, j) == BlockAt(p, d, i) {
        WhichBlock(p, d, i, p, j);
      }
    }
    assert FreeOf(list', d, p) == FreeOf(list, d, p) + {i};
    assert i !in FreeOf(list, d, p);
  }

  /** One free list gained or lost one block; the arenas are alike. */
  ghost predicate Moved(h: Heap, h': Heap, d: nat, addr: nat)
    requires |h.free| == DESC_CNT && d < DESC_CNT
  {
    && Alike(h.arenas, h'.arenas) && |h'.free| == DESC_CNT && h'.free == h.free[d := h'.free[d]]
    && forall a :: a != addr ==> (a in h.free[d] <==> a in h'.free[d])
  }

  lemma MovedFree(h: Heap, h': Heap, d: nat, addr: nat)
    requires FreeOk(h.arenas, h.free) && d < DESC_CNT && Moved(h, h', d, addr) && SmallBlock(h.arenas, d, addr)
    requires Distinct(h'.free[d])
    ensures FreeOk(h'.arenas, h'.free)
  {
    forall d', a | 0 <= d' < DESC_CNT && a in h'.free[d'] ensures SmallBlock(h'.arenas, d', a) {
      AlikeBlocks(h.arenas, h'.arenas, d', a);
    }
  }

  lemma MovedUse(h: Heap, h': Heap, d: nat, addr: nat, a: nat)
    requires FreeOk(h.arenas, h.free) && d < DESC_CNT && Moved(h, h', d, addr)
    ensures a != addr ==> (InUse(h'.arenas, h'.free, a) <==> InUse(h.arenas, h.free, a))
    ensures SmallBlock(h.arenas, d, addr) && !BigBlock(h.arenas, addr) ==>
      (InUse(h'.arenas, h'.free, addr) <==> addr !in h'.free[d])
    ensures SizeOf(h'.arenas, a) == SizeOf(h.arenas, a)
  {
    forall d' ensures SmallBlock(h.arenas, d', a) <==> SmallBlock(h'.arenas, d', a) {
      AlikeBlocks(h.arenas, h'.arenas, d', a);
    }
    AlikeBlocks(h.arenas, h'.arenas, d, a);
    AlikeBlocks(h.arenas, h'.arenas, d, addr);
    if SmallBlock(h.arenas, d, addr) && !BigBlock(h.arenas, addr) {
      forall d' | 0 <= d' < DESC_CNT && SmallBlock(h'.arenas, d', addr) ensures d' == d {
        OneDescriptor(h'.arenas, d, d', addr);
      }
    }
  }

  lemma MovedCounts(h: Heap, h': Heap, d: nat, p: nat, i: nat)
    requires |h.free| == DESC_CNT && CountsOk(h.arenas, h.free) && IsBlock(h.arenas, d, p, i)
    requires Moved(h, h', d, BlockAt(p, d, i))
    requires h'.arenas == h.arenas[p := h'.arenas[p]] && h'.arenas[p].freeCnt == |FreeOf(h'.free[d], d, p)|
    ensures CountsOk(h'.arenas, h'.free)
  {
    forall x | x in h'.arenas && h'.arenas[x].Small?
      ensures h'.arenas[x].desc < DESC_CNT
      ensures h'.arenas[x].freeCnt == |FreeOf(h'.free[h'.arenas[x].desc], h'.arenas[x].desc, x)|
    {
      if x != p && h'.arenas[x].desc == d {
        FreeOfOther(h.free[d], h'.free[d], d, p, x, i);
      }
    }
  }

  /** The block is handed out or taken back; `live` follows. */
  lemma MovedLive(h: Heap, h': Heap, d: nat, p: nat, i: nat, size: nat)
    requires FreeOk(h.arenas, h.free) && LiveOk(h.arenas, h.free, h.live) && IsBlock(h.arenas, d, p, i)
    requires size <= BlockSize(d)
    requires var addr := BlockAt(p, d, i);
      Moved(h, h', d, addr) && h'.live == if addr in h'.free[d] then h.live - {addr} else h.live[addr := size]
    ensures LiveOk(h'.arenas, h'.free, h'.live) && SizeOf(h'.arenas, BlockAt(p, d, i)) == BlockSize(d)
  {
    var addr := BlockAt(p, d, i);
    BlockInPage(p, d, i);
    BlockNotBig(h.arenas, p, d, i);
    assert SmallBlock(h.arenas, d, addr);
    forall a: nat
      ensures (a in h'.live <==> InUse(h'.arenas, h'.free, a)) && (a in h'.live ==> h'.live[a] <= SizeOf(h'.arenas, a))
    {
      MovedUse(h, h', d, addr, a);
    }
  }

  /** No arena but possibly the one at `p` is without a block in use. */
  ghost predicate NoneIdleBut(arenas: Arenas, p: nat)
  {
    forall x :: x in arenas && x != p && arenas[x].Small? ==>
      arenas[x].desc < DESC_CNT && arenas[x].freeCnt < PerArena(arenas[x].desc)
  }

  // ----- malloc -----

  /** Takes the first block of a free list. */
  function Popped(h: Heap, d: nat, size: nat): Heap
    requires |h.free| == DESC_CNT && d < DESC_CNT && h.free[d] != []
  {
    var addr := h.free[d][0];
    var p := addr / PGSIZE;
    var c := if p in h.arenas && h.arenas[p].Small? && h.arenas[p].freeCnt > 0 then h.arenas[p].freeCnt - 1 else 0;
    h.(arenas := h.arenas[p := Small(d, c)], free := h.free[d := h.free[d][1..]], live := h.live[addr := size])
  }

  lemma FirstFree(h: Heap, d: nat) returns (p: nat, i: nat)
    requires FreeOk(h.arenas, h.free) && CountsOk(h.arenas, h.free) && d < DESC_CNT && h.free[d] != []
    ensures IsBlock(h.arenas, d, p, i) && h.free[d][0] == BlockAt(p, d, i) && h.free[d][0] / PGSIZE == p
    ensures h.arenas[p].freeCnt == |FreeOf(h.free[d], d, p)| > 0
  {
    var addr := h.free[d][0];
    assert addr in h.free[d] && SmallBlock(h.arenas, d, addr);
    p, i :| IsBlock(h.arenas, d, p, i) && addr == BlockAt(p, d, i);
    BlockInPage(p, d, i);
    assert i in FreeOf(h.free[d], d, p);
  }

  lemma PoppedKeeps(h: Heap, d: nat, size: nat)
    requires Inv(h) && d < DESC_CNT && h.free[d] != [] && size <= BlockSize(d)
    requires NoneIdleBut(h.arenas, h.free[d][0] / PGSIZE)
    ensures Inv(Popped(h, d, size)) && NoneIdle(Popped(h, d, size).arenas)
    ensures h.free[d][0] !in h.live && SizeOf(Popped(h, d, size).arenas, h.free[d][0]) == BlockSize(d)
  {
    hide PagesOk, LiveOk, FreeOf, Distinct, SizeOf, BlockAt, Alike;
    var p, i := FirstFree(h, d);
    var h' := Popped(h, d, size);
    PoppedForm(h, d, size, p, i);
    NotYetLive(h, d, p, i);
    PagesSame(h.used, h.base, h.arenas, p, h'.arenas[p]);
    assert SmallBlock(h.arenas, d, h.free[d][0]);
    MovedFree(h, h', d, h.free[d][0]);
    MovedCounts(h, h', d, p, i);
    MovedLive(h, h', d, p, i, size);
  }

  lemma PoppedForm(h: Heap, d: nat, size: nat, p: nat, i: nat)
    requires FreeOk(h.arenas, h.free) && IsBlock(h.arenas, d, p, i) && h.free[d] != []
    requires h.free[d][0] == BlockAt(p, d, i) && h.free[d][0] / PGSIZE == p
    requires h.arenas[p].freeCnt == |FreeOf(h.free[d], d, p)| > 0
    ensures var h' := Popped(h, d, size);
      && Moved(h, h', d, BlockAt(p, d, i)) && Distinct(h'.free[d]) && BlockAt(p, d, i) !in h'.free[d]
      && h'.arenas == h.arenas[p := h'.arenas[p]] && h'.arenas[p] == Small(d, |FreeOf(h'.free[d], d, p)|)
      && h'.arenas[p].freeCnt < PerArena(d)
  {
    PoppedList(h.free[d]);
    FreeOfAdd(h.free[d][1..], h.free[d], d, p, i);
    FullWhenAll(h.free[d], d, p);
  }

  lemma PoppedList(s: seq<nat>)
    requires s != [] && Distinct(s)
    ensures Distinct(s[1..]) && s[0] !in s[1..] && forall a :: a in s <==> a in s[1..] || a == s[0]
  {
    assert s == [s[0]] + s[1..];
    assert forall k :: 0 <= k < |s| - 1 ==> s[1..][k] == s[k + 1];
  }

  lemma NotYetLive(h: Heap, d: nat, p: nat, i: nat)
    requires Inv(h) && IsBlock(h.arenas, d, p, i) && BlockAt(p, d, i) in h.free[d]
    ensures BlockAt(p, d, i) !in h.live
  {
    if BlockAt(p, d, i) in h.live {
      BlockInPage(p, d, i);
      var x, y := LiveIndex(h, BlockAt(p, d, i));
    }
  }

  /** All blocks of an arena, in order. */
  function AllBlocks(p: nat, d: nat): (r: seq<nat>)
    requires d < DESC_CNT
    ensures |r| == PerArena(d) && forall i :: 0 <= i < |r| ==> r[i] == BlockAt(p, d, i)
  {
    seq(PerArena(d), i requires 0 <= i < PerArena(d) => BlockAt(p, d, i))
  }

  /** A new arena, with all its blocks on the free list. */
  function Opened(h: Heap, d: nat, p: nat): Heap
    requires d < DESC_CNT == |h.free| && p < |h.used|
  {
    h.(used := SetRange(h.used, p, 1, true), arenas := h.arenas[p := Small(d, PerArena(d))],
       free := h.free[d := h.free[d] + AllBlocks(p, d)])
  }

  /** A block of an arena that is there before and after. */
  lemma OpenedBlocks(arenas: Arenas, d: nat, p: nat, d': nat, addr: nat)
    requires p !in arenas && d < DESC_CNT
    ensures var arenas' := arenas[p := Small(d, PerArena(d))];
      && (SmallBlock(arenas', d', addr) <==> SmallBlock(arenas, d', addr) || (d' == d && addr in AllBlocks(p, d)))
      && (BigBlock(arenas', addr) <==> BigBlock(arenas, addr))
  {
    var arenas' := arenas[p := Small(d, PerArena(d))];
    if SmallBlock(arenas', d', addr) {
      var x: nat, i: nat :| IsBlock(arenas', d', x, i) && addr == BlockAt(x, d', i);
      if x == p {
        assert AllBlocks(p, d)[i] == addr;
      } else {
        assert IsBlock(arenas, d', x, i);
      }
    }
    if SmallBlock(arenas, d', addr) {
      var x: nat, i: nat :| IsBlock(arenas, d', x, i) && addr == BlockAt(x, d', i);
      assert IsBlock(arenas', d', x, i);
    }
    if d' == d && addr in AllBlocks(p, d) {
      var i: nat :| 0 <= i < PerArena(d) && AllBlocks(p, d)[i] == addr;
      assert IsBlock(arenas', d, p, i);
    }
    if BigBlock(arenas, addr) {
      var x: nat :| x in arenas && arenas[x].Big? && addr == PGSIZE * x + HEADER;
      assert x in arenas' && arenas'[x].Big?;
    }
    if BigBlock(arenas', addr) {
      var x: nat :| x in arenas' && arenas'[x].Big? && addr == PGSIZE * x + HEADER;
      assert x in arenas && arenas[x].Big?;
    }
  }

  /** The new blocks are nobody's yet. */
  lemma NewBlocks(arenas: Arenas, d: nat, p: nat, d': nat, addr: nat)
    requires p !in arenas && d < DESC_CNT && addr in AllBlocks(p, d)
    ensures !SmallBlock(arenas, d', addr) && !BigBlock(arenas, addr) && addr / PGSIZE == p
  {
    var i: nat :| 0 <= i < PerArena(d) && AllBlocks(p, d)[i] == addr;
    BlockInPage(p, d, i);
    if SmallBlock(arenas, d', addr) {
      var x: nat, j: nat :| IsBlock(arenas, d', x, j) && addr == BlockAt(x, d', j);
      BlockInPage(x, d', j);
    }
    if BigBlock(arenas, addr) {
      var x: nat :| x in arenas && arenas[x].Big? && addr == PGSIZE * x + HEADER;
      BigStart(x);
    }
  }

  lemma AllBlocksDistinct(p: nat, d: nat)
    requires d < DESC_CNT
    ensures Distinct(AllBlocks(p, d))
  {
    var r := AllBlocks(p, d);
    forall i, j | 0 <= i < j < |r| ensures r[i] != r[j] {
      BlocksApart(p, d, i, j);
    }
  }

  lemma OpenedFree(h: Heap, d: nat, p: nat)
    requires FreeOk(h.arenas, h.free) && d < DESC_CNT && p < |h.used| && p !in h.arenas
    ensures FreeOk(Opened(h, d, p).arenas, Opened(h, d, p).free)
  {
    var h', all := Opened(h, d, p), AllBlocks(p, d);
    AllBlocksDistinct(p, d);
    forall a | a in h.free[d] ensures a !in all {
      if a in all {
        NewBlocks(h.arenas, d, p, d, a);
      }
    }
    Joined(h.free[d], all);
    forall d', a | 0 <= d' < DESC_CNT && a in h'.free[d'] ensures SmallBlock(h'.arenas, d', a) {
      OpenedBlocks(h.arenas, d, p, d', a);
    }
  }

  lemma Joined(s: seq<nat>, t: seq<nat>)
    requires Distinct(s) && Distinct(t) && forall a :: a in s ==> a !in t
    ensures Distinct(s + t)
  {
    var r := s + t;
    forall i, j | 0 <= i < j < |r| ensures r[i] != r[j] {
      if i < |s| <= j {
        assert s[i] in s && t[j - |s|] in t;
      }
    }
  }

  lemma OpenedCounts(h: Heap, d: nat, p: nat)
    requires FreeOk(h.arenas, h.free) && CountsOk(h.arenas, h.free) && d < DESC_CNT && p < |h.used| && p !in h.arenas
    ensures CountsOk(Opened(h, d, p).arenas, Opened(h, d, p).free)
  {
    var h', all := Opened(h, d, p), AllBlocks(p, d);
    forall x | x in h'.arenas && h'.arenas[x].Small?
      ensures h'.arenas[x].desc < DESC_CNT
      ensures h'.arenas[x].freeCnt == |FreeOf(h'.free[h'.arenas[x].desc], h'.arenas[x].desc, x)|
    {
      if x == p {
        assert forall i :: 0 <= i < PerArena(d) ==> BlockAt(p, d, i) == all[i] && all[i] in h'.free[d];
        FullWhenAll(h'.free[d], d, p);
      } else if h'.arenas[x].desc == d {
        OpenedOther(h.free[d], d, p, x);
      }
    }
  }

  lemma OpenedOther(list: seq<nat>, d: nat, p: nat, x: nat)
    requires d < DESC_CNT && x != p
    ensures FreeOf(list + AllBlocks(p, d), d, x) == FreeOf(list, d, x)
  {
    forall i | 0 <= i < PerArena(d) ensures BlockAt(x, d, i) !in AllBlocks(p, d) {
      BlockInPage(x, d, i);
      if BlockAt(x, d, i) in AllBlocks(p, d) {
        NewBlocks(map[], d, p, d, BlockAt(x, d, i));
      }
    }
  }

  lemma OpenedLive(h: Heap, d: nat, p: nat)
    requires FreeOk(h.arenas, h.free) && LiveOk(h.arenas, h.free, h.live) && d < DESC_CNT && p < |h.used|
    requires p !in h.arenas
    ensures LiveOk(Opened(h, d, p).arenas, Opened(h, d, p).free, h.live)
  {
    var h', all := Opened(h, d, p), AllBlocks(p, d);
    forall a: nat ensures InUse(h'.arenas, h'.free, a) <==> InUse(h.arenas, h.free, a) {
      forall d' ensures SmallBlock(h'.arenas, d', a) <==> SmallBlock(h.arenas, d', a) || (d' == d && a in all) {
        OpenedBlocks(h.arenas, d, p, d', a);
      }
      OpenedBlocks(h.arenas, d, p, d, a);
      if a in all {
        forall d' ensures !SmallBlock(h.arenas, d', a) {
          NewBlocks(h.arenas, d, p, d', a);
        }
        NewBlocks(h.arenas, d, p, d, a);
      }
    }
    forall a | a in h.live ensures SizeOf(h'.arenas, a) == SizeOf(h.arenas, a) {
      LivePage(h.arenas, h.free, a);
    }
  }

  lemma LivePage(arenas: Arenas, free: seq<seq<nat>>, addr: nat)
    requires |free| == DESC_CNT && InUse(arenas, free, addr)
    ensures addr / PGSIZE in arenas
  {
    if BigBlock(arenas, addr) {
      var p :| p in arenas && arenas[p].Big? && addr == PGSIZE * p + HEADER;
      BigStart(p);
    } else {
      var d :| 0 <= d < DESC_CNT && SmallBlock(arenas, d, addr) && addr !in free[d];
      var p, i :| IsBlock(arenas, d, p, i) && addr == BlockAt(p, d, i);
      BlockInPage(p, d, i);
    }
  }

  lemma OpenedKeeps(h: Heap, d: nat, p: nat)
    requires Inv(h) && d < DESC_CNT && Group(h.used, p, 1, false)
    ensures Inv(Opened(h, d, p)) && (NoneIdle(h.arenas) ==> NoneIdleBut(Opened(h, d, p).arenas, p)) && p !in h.arenas
  {
    PagesTake(h.used, h.base, h.arenas, p, Small(d, PerArena(d)));
    OpenedFree(h, d, p);
    OpenedCounts(h, d, p);
    OpenedLive(h, d, p);
  }

  // ----- big blocks -----

  /** Pages of their own for a block of `size` bytes. */
  function BigTaken(h: Heap, p: nat, n: nat, size: nat): Heap
    requires p + n <= |h.used|
  {
    h.(used := SetRange(h.used, p, n, true), arenas := h.arenas[p := Big(n)], live := h.live[PGSIZE * p + HEADER := size])
  }

  function BigGiven(h: Heap, p: nat): Heap
    requires p in h.arenas && p + Pages(h.arenas[p]) <= |h.used|
  {
    h.(used := SetRange(h.used, p, Pages(h.arenas[p]), false), arenas := h.arenas - {p}, live := h.live - {PGSIZE * p + HEADER})
  }

  /** What a big arena adds: one big block, no small one. */
  lemma BigBlocks(arenas: Arenas, p: nat, n: nat, d: nat, addr: nat)
    requires p !in arenas
    ensures var arenas' := arenas[p := Big(n)];
      && (SmallBlock(arenas', d, addr) <==> SmallBlock(arenas, d, addr))
      && (BigBlock(arenas', addr) <==> BigBlock(arenas, addr) || addr == PGSIZE * p + HEADER)
  {
    var arenas' := arenas[p := Big(n)];
    if SmallBlock(arenas', d, addr) {
      var x: nat, i: nat :| IsBlock(arenas', d, x, i) && addr == BlockAt(x, d, i);
      assert IsBlock(arenas, d, x, i);
    }
    if SmallBlock(arenas, d, addr) {
      var x: nat, i: nat :| IsBlock(arenas, d, x, i) && addr == BlockAt(x, d, i);
      assert IsBlock(arenas', d, x, i);
    }
    if BigBlock(arenas', addr) {
      var x: nat :| x in arenas' && arenas'[x].Big? && addr == PGSIZE * x + HEADER;
      assert x == p || (x in arenas && arenas[x].Big?);
    }
    if BigBlock(arenas, addr) {
      var x: nat :| x in arenas && arenas[x].Big? && addr == PGSIZE * x + HEADER;
      assert x in arenas' && arenas'[x].Big?;
    }
    if addr == PGSIZE * p + HEADER {
      assert p in arenas' && arenas'[p].Big?;
    }
  }

  /** The first address of a page without arena is nobody's block. */
  lemma NobodysPage(arenas: Arenas, free: seq<seq<nat>>, p: nat, addr: nat)
    requires |free| == DESC_CNT && p !in arenas && addr / PGSIZE == p
    ensures !InUse(arenas, free, addr)
  {
    if InUse(arenas, free, addr) {
      LivePage(arenas, free, addr);
    }
  }

  lemma BigUse(arenas: Arenas, free: seq<seq<nat>>, p: nat, n: nat, a: nat)
    requires |free| == DESC_CNT && p !in arenas
    ensures InUse(arenas[p := Big(n)], free, a) <==> InUse(arenas, free, a) || a == PGSIZE * p + HEADER
  {
    forall d ensures SmallBlock(arenas[p := Big(n)], d, a) <==> SmallBlock(arenas, d, a) {
      BigBlocks(arenas, p, n, d, a);
    }
    BigBlocks(arenas, p, n, 0, a);
  }

  lemma BigFree(arenas: Arenas, free: seq<seq<nat>>, p: nat, n: nat)
    requires p !in arenas
    ensures FreeOk(arenas, free) <==> FreeOk(arenas[p := Big(n)], free)
  {
    forall d, a ensures SmallBlock(arenas[p := Big(n)], d, a) <==> SmallBlock(arenas, d, a) {
      BigBlocks(arenas, p, n, d, a);
    }
  }

  lemma BigSize(arenas: Arenas, p: nat, n: nat, a: nat)
    requires p !in arenas
    ensures a / PGSIZE != p ==> SizeOf(arenas[p := Big(n)], a) == SizeOf(arenas, a)
    ensures n > 0 ==> SizeOf(arenas[p := Big(n)], PGSIZE * p + HEADER) == PGSIZE * n - HEADER
  {
    BigStart(p);
  }

  lemma BigTakenKeeps(h: Heap, p: nat, n: nat, size: nat)
    requires Inv(h) && n > 0 && Group(h.used, p, n, false) && size + HEADER <= PGSIZE * n
    ensures p !in h.arenas && Inv(BigTaken(h, p, n, size)) && PGSIZE * p + HEADER !in h.live
    ensures (NoneIdle(h.arenas) ==> NoneIdle(BigTaken(h, p, n, size).arenas))
    ensures SizeOf(BigTaken(h, p, n, size).arenas, PGSIZE * p + HEADER) == PGSIZE * n - HEADER
  {
    var addr, h' := PGSIZE * p + HEADER, BigTaken(h, p, n, size);
    BigStart(p);
    PagesTake(h.used, h.base, h.arenas, p, Big(n));
    BigFree(h.arenas, h.free, p, n);
    NobodysPage(h.arenas, h.free, p, addr);
    hide PagesOk, SizeOf, InUse, FreeOk;
    FreeCount(h.arenas, h.free);
    forall a: nat ensures a in h'.live <==> InUse(h'.arenas, h'.free, a) {
      BigUse(h.arenas, h.free, p, n, a);
    }
    forall a | a in h'.live ensures h'.live[a] <= SizeOf(h'.arenas, a) {
      BigSize(h.arenas, p, n, a);
      if a != addr {
        LivePage(h.arenas, h.free, a);
      }
    }
    BigSize(h.arenas, p, n, addr);
  }

  lemma FreeCount(arenas: Arenas, free: seq<seq<nat>>)
    requires FreeOk(arenas, free)
    ensures |free| == DESC_CNT
  {
  }

  lemma BigGivenKeeps(h: Heap, p: nat)
    requires Inv(h) && p in h.arenas && h.arenas[p].Big?
    ensures p + Pages(h.arenas[p]) <= |h.used| && Group(h.used, p, Pages(h.arenas[p]), true)
    ensures Inv(BigGiven(h, p)) && (NoneIdle(h.arenas) ==> NoneIdle(BigGiven(h, p).arenas))
  {
    hide SizeOf, InUse, FreeOk, PagesOk;
    FreeCount(h.arenas, h.free);
    var addr, n, rest := PGSIZE * p + HEADER, h.arenas[p].pages, h.arenas - {p};
    BigStart(p);
    PagesGive(h.used, h.base, h.arenas, p);
    assert h.arenas == rest[p := Big(n)];
    BigFree(rest, h.free, p, n);
    NobodysPage(rest, h.free, p, addr);
    var h' := BigGiven(h, p);
    forall a: nat ensures a in h'.live <==> InUse(h'.arenas, h'.free, a) {
      BigUse(rest, h.free, p, n, a);
    }
    forall a | a in h'.live ensures h'.live[a] <= SizeOf(h'.arenas, a) {
      LivePage(rest, h.free, a);
      BigSize(rest, p, n, a);
    }
  }

  // ----- free -----

  /** A small block goes to the front of its free list. */
  function Pushed(h: Heap, d: nat, addr: nat): Heap
    requires d < DESC_CNT == |h.free|
  {
    var p := addr / PGSIZE;
    var c := if p in h.arenas && h.arenas[p].Small? then h.arenas[p].freeCnt + 1 else 0;
    h.(arenas := h.arenas[p := Small(d, c)], free := h.free[d := [addr] + h.free[d]], live := h.live - {addr})
  }

  lemma PushedForm(h: Heap, d: nat, p: nat, i: nat)
    requires FreeOk(h.arenas, h.free) && CountsOk(h.arenas, h.free) && IsBlock(h.arenas, d, p, i)
    requires BlockAt(p, d, i) !in h.free[d]
    ensures var h' := Pushed(h, d, BlockAt(p, d, i));
      && Moved(h, h', d, BlockAt(p, d, i)) && Distinct(h'.free[d]) && BlockAt(p, d, i) in h'.free[d]
      && h'.arenas == h.arenas[p := h'.arenas[p]] && h'.arenas[p] == Small(d, |FreeOf(h'.free[d], d, p)|)
      && h'.arenas[p].freeCnt == h.arenas[p].freeCnt + 1
  {
    var addr := BlockAt(p, d, i);
    BlockInPage(p, d, i);
    Joined([addr], h.free[d]);
    FreeOfAdd(h.free[d], [addr] + h.free[d], d, p, i);
  }

  lemma PushedKeeps(h: Heap, d: nat, p: nat, i: nat)
    requires Inv(h) && IsBlock(h.arenas, d, p, i) && BlockAt(p, d, i) !in h.free[d]
    ensures Inv(Pushed(h, d, BlockAt(p, d, i)))
    ensures NoneIdle(h.arenas) ==> NoneIdleBut(Pushed(h, d, BlockAt(p, d, i)).arenas, p)
  {
    hide PagesOk, LiveOk, FreeOf, Distinct, SizeOf, BlockAt, Alike;
    var addr := BlockAt(p, d, i);
    var h' := Pushed(h, d, addr);
    PushedForm(h, d, p, i);
    PagesSame(h.used, h.base, h.arenas, p, h'.arenas[p]);
    assert SmallBlock(h.arenas, d, addr);
    MovedFree(h, h', d, addr);
    MovedCounts(h, h', d, p, i);
    MovedLive(h, h', d, p, i, 0);
  }

  /** An arena without a block in use goes back to the page allocator; `list`
      is its free list without its blocks. */
  function Closed(h: Heap, d: nat, p: nat, list: seq<nat>): Heap
    requires d < DESC_CNT == |h.free| && p < |h.used|
  {
    h.(used := SetRange(h.used, p, 1, false), arenas := h.arenas - {p}, free := h.free[d := list])
  }

  ghost predicate WithoutBlocks(list: seq<nat>, list': seq<nat>, d: nat, p: nat)
    requires d < DESC_CNT
  {
    Distinct(list') && forall a :: a in list' <==> a in list && a !in AllBlocks(p, d)
  }

  lemma ClosedFree(h: Heap, d: nat, p: nat, list: seq<nat>)
    requires FreeOk(h.arenas, h.free) && d < DESC_CNT && p < |h.used| && p in h.arenas
    requires h.arenas[p] == Small(d, PerArena(d))
    requires WithoutBlocks(h.free[d], list, d, p)
    ensures FreeOk(Closed(h, d, p, list).arenas, Closed(h, d, p, list).free)
  {
    var h', rest := Closed(h, d, p, list), h.arenas - {p};
    assert h.arenas == rest[p := Small(d, PerArena(d))];
    forall d', a | 0 <= d' < DESC_CNT && a in h'.free[d'] ensures SmallBlock(h'.arenas, d', a) {
      assert SmallBlock(h.arenas, d', a);
      OpenedBlocks(rest, d, p, d', a);
    }
  }

  lemma ClosedCounts(h: Heap, d: nat, p: nat, list: seq<nat>)
    requires |h.free| == DESC_CNT && CountsOk(h.arenas, h.free) && d < DESC_CNT && p < |h.used|
    requires WithoutBlocks(h.free[d], list, d, p)
    ensures CountsOk(Closed(h, d, p, list).arenas, Closed(h, d, p, list).free)
  {
    var h' := Closed(h, d, p, list);
    forall x | x in h'.arenas && h'.arenas[x].Small?
      ensures h'.arenas[x].desc < DESC_CNT
      ensures h'.arenas[x].freeCnt == |FreeOf(h'.free[h'.arenas[x].desc], h'.arenas[x].desc, x)|
    {
      if h'.arenas[x].desc == d {
        ClosedOther(h.free[d], list, d, p, x);
      }
    }
  }

  lemma ClosedOther(list: seq<nat>, list': seq<nat>, d: nat, p: nat, x: nat)
    requires d < DESC_CNT && x != p && WithoutBlocks(list, list', d, p)
    ensures FreeOf(list', d, x) == FreeOf(list, d, x)
  {
    forall i | 0 <= i < PerArena(d) ensures BlockAt(x, d, i) !in AllBlocks(p, d) {
      BlockInPage(x, d, i);
      if BlockAt(x, d, i) in AllBlocks(p, d) {
        NewBlocks(map[], d, p, d, BlockAt(x, d, i));
      }
    }
  }

  lemma ClosedLive(h: Heap, d: nat, p: nat, list: seq<nat>)
    requires FreeOk(h.arenas, h.free) && LiveOk(h.arenas, h.free, h.live) && d < DESC_CNT && p < |h.used|
    requires p in h.arenas && h.arenas[p] == Small(d, PerArena(d)) && WithoutBlocks(h.free[d], list, d, p)
    requires forall a :: a in AllBlocks(p, d) ==> a in h.free[d]
    ensures LiveOk(Closed(h, d, p, list).arenas, Closed(h, d, p, list).free, h.live)
  {
    var h', rest, all := Closed(h, d, p, list), h.arenas - {p}, AllBlocks(p, d);
    assert h.arenas == rest[p := Small(d, PerArena(d))];
    forall a: nat ensures InUse(h'.arenas, h'.free, a) <==> InUse(h.arenas, h.free, a) {
      forall d' ensures SmallBlock(h.arenas, d', a) <==> SmallBlock(rest, d', a) || (d' == d && a in all) {
        OpenedBlocks(rest, d, p, d', a);
      }
      OpenedBlocks(rest, d, p, d, a);
      if a in all {
        forall d' ensures !SmallBlock(rest, d', a) {
          NewBlocks(rest, d, p, d', a);
        }
        NewBlocks(rest, d, p, d, a);
      }
    }
    forall a | a in h.live ensures SizeOf(h'.arenas, a) == SizeOf(h.arenas, a) {
      LivePage(h'.arenas, h'.free, a);
    }
  }

  lemma ClosedKeeps(h: Heap, d: nat, p: nat, list: seq<nat>)
    requires Inv(h) && d < DESC_CNT && p in h.arenas && h.arenas[p] == Small(d, PerArena(d))
    requires WithoutBlocks(h.free[d], list, d, p)
    ensures p < |h.used| && Group(h.used, p, 1, true)
    ensures Inv(Closed(h, d, p, list)) && (NoneIdleBut(h.arenas, p) ==> NoneIdle(Closed(h, d, p, list).arenas))
  {
    PagesGive(h.used, h.base, h.arenas, p);
    FullWhenAll(h.free[d], d, p);
    forall a | a in AllBlocks(p, d) ensures a in h.free[d] {
      var i: nat :| 0 <= i < PerArena(d) && AllBlocks(p, d)[i] == a;
    }
    ClosedFree(h, d, p, list);
    ClosedCounts(h, d, p, list);
    ClosedLive(h, d, p, list);
  }
}
